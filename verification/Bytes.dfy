// Octets, exclusive or, little-endian fields and flash contents as sequences of octets.
module Bytes {

  type byte = x: int | 0 <= x < 256

  // The value of an erased octet of NOR flash.
  const EMPTY_U8: byte := 0xff

  function Min(a: int, b: int): int {
    if a < b then a else b
  }

  function Max(a: int, b: int): int {
    if a < b then b else a
  }

  // ----- exclusive or -----

  // Exclusive or of the k low-order bits, one bit at a time.
  function XorBits(a: nat, b: nat, k: nat): nat {
    if k == 0 then 0 else 2 * XorBits(a / 2, b / 2, k - 1) + if a % 2 == b % 2 then 0 else 1
  }

  function Xor(a: byte, b: byte): byte {
    XorBitsBound(a, b, 8);
    XorBits(a, b, 8)
  }

  function Pow2(k: nat): nat {
    if k == 0 then 1 else 2 * Pow2(k - 1)
  }

  lemma {:induction false} XorBitsBound(a: nat, b: nat, k: nat)
    ensures XorBits(a, b, k) < Pow2(k)
    ensures Pow2(8) == 256
  {
    if k > 0 {
      XorBitsBound(a / 2, b / 2, k - 1);
    }
  }

  lemma {:induction false} XorBitsTwice(a: nat, b: nat, k: nat)
    requires a < Pow2(k)
    ensures XorBits(XorBits(a, b, k), b, k) == a
  {
    if k > 0 {
      XorBitsTwice(a / 2, b / 2, k - 1);
      var x := XorBits(a / 2, b / 2, k - 1);
      assert XorBits(a, b, k) / 2 == x;
    }
  }

  // Applying the same mask twice restores the octet: the reason decryption and re-encryption undo each other.
  lemma XorTwice(a: byte, b: byte)
    ensures Xor(Xor(a, b), b) == a
  {
    XorBitsBound(a, b, 8);
    XorBitsTwice(a, b, 8);
  }

  // Bit k of a number.
  function Bit(n: nat, k: nat): nat {
    if k == 0 then n % 2 else Bit(n / 2, k - 1)
  }

  // Adding the weight of a bit that is clear sets it, and taking away that of a bit that is set clears it.
  lemma {:induction false} SetBit(n: nat, j: nat, k: nat)
    requires Bit(n, j) == 0
    ensures Bit(n + Pow2(j), k) == if k == j then 1 else Bit(n, k)
  {
    if j > 0 {
      assert (n + Pow2(j)) / 2 == n / 2 + Pow2(j - 1) && (n + Pow2(j)) % 2 == n % 2;
      if k > 0 {
        SetBit(n / 2, j - 1, k - 1);
      }
    } else if k > 0 {
      assert (n + 1) / 2 == n / 2;
    }
  }

  lemma {:induction false} ClearBit(n: nat, j: nat, k: nat)
    requires Bit(n, j) == 1
    ensures n >= Pow2(j) && Bit(n - Pow2(j), k) == if k == j then 0 else Bit(n, k)
  {
    if j > 0 {
      ClearBit(n / 2, j - 1, if k > 0 then k - 1 else 0);
      assert (n - Pow2(j)) / 2 == n / 2 - Pow2(j - 1) && (n - Pow2(j)) % 2 == n % 2;
    } else if k > 0 {
      assert (n - 1) / 2 == n / 2;
    }
  }

  // The bits make the number.
  lemma {:induction false} SameBits(a: nat, b: nat, n: nat)
    requires a < Pow2(n) && b < Pow2(n) && forall k :: 0 <= k < n ==> Bit(a, k) == Bit(b, k)
    ensures a == b
  {
    if n > 0 {
      assert Bit(a, 0) == Bit(b, 0);
      forall k | 0 <= k < n - 1
        ensures Bit(a / 2, k) == Bit(b / 2, k)
      {
        assert Bit(a, k + 1) == Bit(b, k + 1);
      }
      SameBits(a / 2, b / 2, n - 1);
    }
  }

  // Exclusive or, bit for bit: a bit is set if and only if it is set in exactly one of the two octets.
  lemma XorBit(a: byte, b: byte, k: nat)
    requires k < 8
    ensures Bit(Xor(a, b), k) == if Bit(a, k) == Bit(b, k) then 0 else 1
  {
    XorBitsBit(a, b, 8, k);
  }

  lemma {:induction false} XorBitsBit(a: nat, b: nat, n: nat, k: nat)
    requires k < n
    ensures Bit(XorBits(a, b, n), k) == if Bit(a, k) == Bit(b, k) then 0 else 1
  {
    var x := XorBits(a / 2, b / 2, n - 1);
    assert XorBits(a, b, n) / 2 == x;
    if k > 0 {
      XorBitsBit(a / 2, b / 2, n - 1, k - 1);
    }
  }

  // ----- little-endian fields -----

  function U16(lo: byte, hi: byte): nat {
    lo + 256 * hi
  }

  function U32(b0: byte, b1: byte, b2: byte, b3: byte): nat {
    b0 + 256 * (b1 + 256 * (b2 + 256 * b3))
  }

  function PutU16(n: nat): (r: seq<byte>)
    ensures |r| == 2
  {
    [n % 256, n / 256 % 256]
  }

  function PutU32(n: nat): (r: seq<byte>)
    ensures |r| == 4
  {
    [n % 256, n / 256 % 256, n / 256 / 256 % 256, n / 256 / 256 / 256 % 256]
  }

  lemma U16RoundTrip(n: nat)
    requires n < 0x1_0000
    ensures var s := PutU16(n); U16(s[0], s[1]) == n
  {}

  lemma U32RoundTrip(n: nat)
    requires n < 0x1_0000_0000
    ensures var s := PutU32(n); U32(s[0], s[1], s[2], s[3]) == n
  {}

  // ----- flash contents -----

  // Reading outside the device gives the erased value, so that contents can be described for every address.
  function At(mem: seq<byte>, a: int): byte {
    if 0 <= a < |mem| then mem[a] else EMPTY_U8
  }

  function Slice(mem: seq<byte>, off: int, len: nat): (r: seq<byte>)
    ensures |r| == len
  {
    seq<byte>(len, i => At(mem, off + i))
  }

  // n erased octets.
  function Fill(n: nat): (r: seq<byte>)
    ensures |r| == n && forall i :: 0 <= i < n ==> r[i] == EMPTY_U8
  {
    seq<byte>(n, _ => EMPTY_U8)
  }

  // What flash_erase leaves behind.
  function Erased(mem: seq<byte>, off: int, len: nat): (r: seq<byte>)
    ensures |r| == |mem|
    ensures forall a {:trigger At(r, a)} :: At(r, a) == if off <= a < off + len then EMPTY_U8 else At(mem, a)
  {
    seq(|mem|, a requires 0 <= a < |mem| => if off <= a < off + len then EMPTY_U8 else mem[a])
  }

  // What writing `data` over erased flash leaves behind.
  function Put(mem: seq<byte>, off: int, data: seq<byte>): (r: seq<byte>)
    ensures |r| == |mem|
    ensures forall a {:trigger At(r, a)} ::
              At(r, a) == if off <= a < off + |data| && 0 <= a < |mem| then data[a - off] else At(mem, a)
  {
    seq(|mem|, a requires 0 <= a < |mem| => if off <= a < off + |data| then data[a - off] else mem[a])
  }

  lemma PutNothing(mem: seq<byte>, off: int)
    ensures Put(mem, off, []) == mem
  {
    SameEverywhere(Put(mem, off, []), mem);
  }

  lemma PutAppend(mem: seq<byte>, off: int, a: seq<byte>, b: seq<byte>)
    ensures Put(Put(mem, off, a), off + |a|, b) == Put(mem, off, a + b)
  {
    SameEverywhere(Put(Put(mem, off, a), off + |a|, b), Put(mem, off, a + b));
  }

  // Two flash contents that agree on [lo, hi).
  ghost predicate SameOn(a: seq<byte>, b: seq<byte>, lo: int, hi: int) {
    forall i {:trigger At(a, i)} {:trigger At(b, i)} :: lo <= i < hi ==> At(a, i) == At(b, i)
  }

  // Two flash contents that agree everywhere except possibly on [lo, hi).
  ghost predicate SameOutside(a: seq<byte>, b: seq<byte>, lo: int, hi: int) {
    && |a| == |b|
    && forall i {:trigger At(a, i)} {:trigger At(b, i)} :: !(lo <= i < hi) ==> At(a, i) == At(b, i)
  }

  ghost predicate Blank(mem: seq<byte>, lo: int, hi: int) {
    forall i {:trigger At(mem, i)} :: lo <= i < hi ==> At(mem, i) == EMPTY_U8
  }

  lemma SamePart(a: seq<byte>, b: seq<byte>, lo: int, hi: int, lo': int, hi': int)
    requires SameOn(a, b, lo, hi) && lo <= lo' && hi' <= hi
    ensures SameOn(a, b, lo', hi')
  {}

  lemma SameEverywhere(a: seq<byte>, b: seq<byte>)
    requires |a| == |b|
    requires forall i {:trigger At(a, i)} {:trigger At(b, i)} :: At(a, i) == At(b, i)
    ensures a == b
  {
    forall i | 0 <= i < |a|
      ensures a[i] == b[i]
    {
      assert At(a, i) == At(b, i);
    }
  }
}
