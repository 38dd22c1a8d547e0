// AES in counter mode: zepboot/src/zb_aes.c and the counter skip loop of zepboot/src/zb_move.c.
// The block cipher itself is a function value, `Aes`; nothing about it is assumed.
module Ctr {
  import opened Bytes

  const AES_BLOCK_SIZE: nat := 16

  type Block = s: seq<byte> | |s| == 16 witness seq(16, _ => 0)
  type Aes = (seq<byte>, Block) -> Block

  // ----- the counter as a number -----

  // The `len` low-order octets of n, most significant first.
  function BigEndian(n: nat, len: nat): (s: seq<byte>)
    ensures |s| == len
  {
    if len == 0 then [] else BigEndian(n / 256, len - 1) + [n % 256]
  }

  function Value(s: seq<byte>): nat {
    if s == [] then 0 else 256 * Value(s[..|s| - 1]) + s[|s| - 1]
  }

  function Pow256(k: nat): (p: nat)
    ensures p > 0
  {
    if k == 0 then 1 else 256 * Pow256(k - 1)
  }

  // The counter block after one pass of the carry loop.
  function Bumped(s: seq<byte>): (r: seq<byte>)
    ensures |r| == |s|
  {
    if s == [] then []
    else if s[|s| - 1] == 255 then Bumped(s[..|s| - 1]) + [0]
    else s[..|s| - 1] + [s[|s| - 1] + 1]
  }

  lemma {:induction false} ValueOfBigEndian(s: seq<byte>)
    ensures BigEndian(Value(s), |s|) == s
  {
    if s != [] {
      var p := s[..|s| - 1];
      ValueOfBigEndian(p);
      assert Value(s) / 256 == Value(p) && Value(s) % 256 == s[|s| - 1];
      assert s == p + [s[|s| - 1]];
    }
  }

  lemma {:induction false} BigEndianValue(n: nat, len: nat)
    ensures Value(BigEndian(n, len)) == n % Pow256(len)
  {
    if len > 0 {
      BigEndianValue(n / 256, len - 1);
      var s := BigEndian(n, len);
      assert s[..len - 1] == BigEndian(n / 256, len - 1);
      DivMod256(n, Pow256(len - 1));
    }
  }

  lemma DivMod256(n: nat, p: nat)
    requires p > 0
    ensures n % (256 * p) == 256 * ((n / 256) % p) + n % 256
  {
    var q, r := (n / 256) / p, (n / 256) % p;
    assert n == 256 * (n / 256) + n % 256;
    assert n / 256 == q * p + r;
    assert n == 256 * (q * p + r) + n % 256;
    assert n == q * (256 * p) + (256 * r + n % 256);
    assert 0 <= 256 * r + n % 256 < 256 * p;
    ModUnique(n, 256 * p, q, 256 * r + n % 256);
  }

  lemma ModUnique(n: int, d: int, q: int, r: int)
    requires d > 0 && 0 <= r < d && n == q * d + r
    ensures n % d == r && n / d == q
  {
    var q1, r1 := n / d, n % d;
    assert n == d * q1 + r1;
    assert (q - q1) * d == r1 - r;
    if q > q1 {
      MulAtLeast(q - q1, d);
    } else if q < q1 {
      MulAtLeast(q1 - q, d);
    }
  }

  lemma MulAtLeast(k: int, d: int)
    requires k >= 1 && d > 0
    ensures k * d >= d
  {}

  // The carry loop adds one: BigEndian keeps only `len` octets, so the addition is modulo 256^len.
  lemma {:induction false} BumpAddsOne(n: nat, len: nat)
    ensures Bumped(BigEndian(n, len)) == BigEndian(n + 1, len)
  {
    if len > 0 {
      var s := BigEndian(n, len);
      assert s[..len - 1] == BigEndian(n / 256, len - 1);
      if n % 256 == 255 {
        BumpAddsOne(n / 256, len - 1);
        assert (n + 1) / 256 == n / 256 + 1 && (n + 1) % 256 == 0;
      } else {
        assert (n + 1) / 256 == n / 256 && (n + 1) % 256 == n % 256 + 1;
      }
    }
  }

  // ----- the key stream -----

  // The cipher block for counter value m.
  function KeyBlock(aes: Aes, key: seq<byte>, m: nat): Block {
    aes(key, BigEndian(m, AES_BLOCK_SIZE))
  }

  // Octet i of the key stream that starts at counter value n.
  function Keystream(aes: Aes, key: seq<byte>, n: nat, i: nat): byte {
    KeyBlock(aes, key, n + i / AES_BLOCK_SIZE)[i % AES_BLOCK_SIZE]
  }

  // One pass of counter mode over s from counter value n (section 6.5 of NIST SP 800-38A).
  function CtrPass(aes: Aes, key: seq<byte>, n: nat, s: seq<byte>): (r: seq<byte>)
    ensures |r| == |s|
  {
    seq<byte>(|s|, i requires 0 <= i < |s| => Xor(s[i], Keystream(aes, key, n, i)))
  }

  // Counter mode is its own inverse.
  lemma CtrPassTwice(aes: Aes, key: seq<byte>, n: nat, s: seq<byte>)
    ensures CtrPass(aes, key, n, CtrPass(aes, key, n, s)) == s
  {
    var t := CtrPass(aes, key, n, s);
    forall i | 0 <= i < |s|
      ensures CtrPass(aes, key, n, t)[i] == s[i]
    {
      XorTwice(s[i], Keystream(aes, key, n, i));
    }
  }

  // Whole blocks may be processed separately, as long as the counter moves on by their number.
  lemma CtrPassSplit(aes: Aes, key: seq<byte>, n: nat, a: seq<byte>, b: seq<byte>)
    requires |a| % AES_BLOCK_SIZE == 0
    ensures CtrPass(aes, key, n, a + b)
         == CtrPass(aes, key, n, a) + CtrPass(aes, key, n + |a| / AES_BLOCK_SIZE, b)
  {
    var r := CtrPass(aes, key, n, a) + CtrPass(aes, key, n + |a| / AES_BLOCK_SIZE, b);
    forall i | 0 <= i < |a + b|
      ensures CtrPass(aes, key, n, a + b)[i] == r[i]
    {
      if i >= |a| {
        KeystreamShift(aes, key, n, |a|, i - |a|);
      }
    }
  }

  lemma KeystreamShift(aes: Aes, key: seq<byte>, n: nat, d: nat, i: nat)
    requires d % AES_BLOCK_SIZE == 0
    ensures Keystream(aes, key, n, d + i) == Keystream(aes, key, n + d / AES_BLOCK_SIZE, i)
  {
    assert (d + i) / 16 == d / 16 + i / 16 && (d + i) % 16 == i % 16;
  }

  lemma BlockIndex(i: nat, q: int)
    requires i <= q * 16 < i + 16
    ensures q == (i + 15) / 16
    ensures i / 16 == if i % 16 == 0 then q else q - 1
    ensures i % 16 != 0 ==> i > 0
    ensures i + 1 <= (i / 16 + 1) * 16 < i + 17
  {}

  // A chunk that starts on a block boundary can be processed on its own.
  lemma CtrPassChunk(aes: Aes, key: seq<byte>, n: nat, s: seq<byte>, i: nat, j: nat)
    requires i <= j <= |s| && i % AES_BLOCK_SIZE == 0
    ensures CtrPass(aes, key, n, s)[i..j] == CtrPass(aes, key, n + i / AES_BLOCK_SIZE, s[i..j])
  {
    forall k | 0 <= k < j - i
      ensures CtrPass(aes, key, n, s)[i..j][k] == CtrPass(aes, key, n + i / AES_BLOCK_SIZE, s[i..j])[k]
    {
      KeystreamShift(aes, key, n, i, k);
    }
  }

  lemma CtrPassStep(aes: Aes, key: seq<byte>, n: nat, s: seq<byte>, i: nat)
    requires i < |s|
    ensures var p := CtrPass(aes, key, n, s[..i]) + s[i..];
            p[i] == s[i] && CtrPass(aes, key, n, s[..i + 1]) + s[i + 1..]
                == p[i := Xor(s[i], Keystream(aes, key, n, i))]
  {}

  // The mode as it is described: the counter block itself is encrypted and combined with up to sixteen octets, and the
  // rest is done with the counter carried on by one.
  function Blocks(aes: Aes, key: seq<byte>, ctr: Block, s: seq<byte>): (r: seq<byte>)
    ensures |r| == |s|
    decreases |s|
  {
    if s == [] then []
    else
      var n := Min(AES_BLOCK_SIZE, |s|);
      seq<byte>(n, i requires 0 <= i < n => Xor(s[i], aes(key, ctr)[i])) + Blocks(aes, key, Bumped(ctr), s[n..])
  }

  // One pass is that, for every counter block.
  lemma {:induction false} PassIsBlocks(aes: Aes, key: seq<byte>, n: nat, s: seq<byte>)
    ensures CtrPass(aes, key, n, s) == Blocks(aes, key, BigEndian(n, AES_BLOCK_SIZE), s)
    decreases |s|
  {
    hide Xor, BigEndian;
    if s != [] {
      var k := Min(AES_BLOCK_SIZE, |s|);
      var a, b := s[..k], s[k..];
      assert a + b == s;
      PassIsBlocks(aes, key, n + 1, b);
      BumpAddsOne(n, AES_BLOCK_SIZE);
      if b != [] {
        CtrPassSplit(aes, key, n, a, b);
      } else {
        assert s == a && Blocks(aes, key, BigEndian(n + 1, AES_BLOCK_SIZE), b) == [];
      }
    }
  }

  // The low-order octets come first in a little-endian field.
  lemma LittleEndian(n: nat)
    ensures forall i :: 0 <= i < 4 ==> PutU32(n)[i] == BigEndian(n, 4)[3 - i]
    ensures forall i :: 0 <= i < 2 ==> PutU16(n)[i] == BigEndian(n, 2)[1 - i]
  {
    assert BigEndian(n, 1) == [n % 256];
    assert BigEndian(n / 256, 1) == [n / 256 % 256];
    assert BigEndian(n, 2) == BigEndian(n / 256, 1) + [n % 256];
    assert BigEndian(n / 256, 2) == BigEndian(n / 256 / 256, 1) + [n / 256 % 256];
    assert BigEndian(n / 256, 3) == BigEndian(n / 256 / 256, 2) + [n / 256 % 256];
    assert BigEndian(n / 256 / 256, 2) == BigEndian(n / 256 / 256 / 256, 1) + [n / 256 / 256 % 256];
  }

  // ----- the loops -----

  // The carry loop, written out both in zb_aes_ctr_mode and in zb_img_move.
  method IncrementCounter(ctr: array<byte>)
    modifies ctr
    ensures ctr[..] == Bumped(old(ctr[..]))
  {
    ghost var c := ctr[..];
    var j := ctr.Length;
    while j > 0
      invariant 0 <= j <= ctr.Length
      invariant ctr[..j] == c[..j]
      invariant forall k :: j <= k < ctr.Length ==> c[k] == 255 && ctr[k] == 0
    {
      ctr[j - 1] := (ctr[j - 1] as int + 1) % 256;
      if ctr[j - 1] != 0 {
        BumpedAt(c, j, ctr[..]);
        return;
      }
      j := j - 1;
    }
    BumpedAt(c, 0, ctr[..]);
  }

  // The carry stops at the last octet that is not 0xff; the octets after it become zero.
  lemma {:induction false} BumpedAt(c: seq<byte>, j: nat, r: seq<byte>)
    requires j <= |c| == |r|
    requires forall k :: j <= k < |c| ==> c[k] == 255 && r[k] == 0
    requires j > 0 ==> c[j - 1] < 255 && r[j - 1] == c[j - 1] + 1
    requires forall k :: 0 <= k < j - 1 ==> r[k] == c[k]
    ensures r == Bumped(c)
  {
    var n := |c|;
    if n > j {
      BumpedAt(c[..n - 1], j, r[..n - 1]);
    }
    if n > 0 {
      assert r == r[..n - 1] + [r[n - 1]];
    }
  }

  // Encrypt the counter and move it on.
  method NextKeyBlock(aes: Aes, key: seq<byte>, nonce: array<byte>, ghost m: nat) returns (buffer: Block)
    requires nonce[..] == BigEndian(m, AES_BLOCK_SIZE)
    modifies nonce
    ensures buffer == KeyBlock(aes, key, m)
    ensures nonce[..] == BigEndian(m + 1, AES_BLOCK_SIZE)
  {
    buffer := aes(key, nonce[..]);
    BumpAddsOne(m, AES_BLOCK_SIZE);
    IncrementCounter(nonce);
  }

  // One turn of the loop of zb_aes_ctr_mode; `buffer` holds the block for counter next - 1.
  method CtrOctet(aes: Aes, buf: array<byte>, i: nat, nonce: array<byte>, buffer0: Block, key: seq<byte>,
                  ghost n: nat, ghost next: nat)
    returns (buffer: Block, ghost next': nat)
    requires i < buf.Length && nonce != buf
    requires i <= (next - n) * 16 < i + 16
    requires nonce[..] == BigEndian(next, AES_BLOCK_SIZE)
    requires i > 0 ==> next > n && buffer0 == KeyBlock(aes, key, next - 1)
    modifies buf, nonce
    ensures i + 1 <= (next' - n) * 16 < i + 17
    ensures nonce[..] == BigEndian(next', AES_BLOCK_SIZE)
    ensures next' > n && buffer == KeyBlock(aes, key, next' - 1)
    ensures buf[..] == old(buf[..])[i := Xor(old(buf[i]), Keystream(aes, key, n, i))]
  {
    hide Xor, BigEndian;
    BlockIndex(i, next - n);
    buffer, next' := buffer0, next;
    if i % AES_BLOCK_SIZE == 0 {
      buffer := NextKeyBlock(aes, key, nonce, next);
      next' := next + 1;
    }
    assert n + i / 16 == next' - 1;
    buf[i] := Xor(buf[i], buffer[i % AES_BLOCK_SIZE]);
  }

  // zb_aes_ctr_mode: XOR the first `len` octets of buf in place and leave the next counter in ctr.
  // By ValueOfBigEndian every 16-octet counter is BigEndian(n, 16) for some n.
  method AesCtrMode(aes: Aes, buf: array<byte>, len: nat, ctr: array<byte>, key: seq<byte>, ghost n: nat)
    requires len <= buf.Length && buf != ctr
    requires ctr[..] == BigEndian(n, AES_BLOCK_SIZE)
    modifies buf, ctr
    ensures buf[..] == CtrPass(aes, key, n, old(buf[..len])) + old(buf[len..])
    ensures buf[..] == Blocks(aes, key, old(ctr[..]), old(buf[..len])) + old(buf[len..])
    ensures ctr[..] == BigEndian(n + (len + 15) / 16, AES_BLOCK_SIZE)
  {
    hide Xor, BigEndian;
    ghost var was := buf[..];
    var nonce := new byte[AES_BLOCK_SIZE];
    CopyBlock(ctr, nonce);
    var buffer: Block := seq(16, _ => 0);
    ghost var next := n;
    for i := 0 to len
      invariant i <= (next - n) * 16 < i + 16
      invariant nonce[..] == BigEndian(next, AES_BLOCK_SIZE)
      invariant i > 0 ==> next > n && buffer == KeyBlock(aes, key, next - 1)
      invariant buf[..] == CtrPass(aes, key, n, was[..i]) + was[i..]
    {
      CtrPassStep(aes, key, n, was, i);
      buffer, next := CtrOctet(aes, buf, i, nonce, buffer, key, n, next);
    }
    BlockIndex(len, next - n);
    CopyBlock(nonce, ctr);
    PassIsBlocks(aes, key, n, was[..len]);
  }

  method CopyBlock(from: array<byte>, to: array<byte>)
    requires from.Length == to.Length
    modifies to
    ensures to[..] == old(from[..])
  {
    forall i | 0 <= i < to.Length {
      to[i] := from[i];
    }
  }
}
