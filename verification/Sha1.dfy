/**
 SHA-1 as sections 5 and 6.1 of FIPS 180-4 define it: padding, the 80-word
 message schedule, the 80 rounds, and the digest of a whole message.
 */
module Sha1 {
  type Word = bv32
  type Octet = bv8

  /** The five working variables, or the five words of a hash value. */
  datatype Regs = Regs(a: Word, b: Word, c: Word, d: Word, e: Word)

  const H0 := Regs(0x67452301, 0xEFCDAB89, 0x98BADCFE, 0x10325476, 0xC3D2E1F0)

  function Rol(v: Word, n: Word): Word
    requires 0 < n < 32
  {
    (v << n) | (v >> (32 - n))
  }

  function Ch(x: Word, y: Word, z: Word): Word {
    (x & y) ^ (!x & z)
  }

  function Parity(x: Word, y: Word, z: Word): Word {
    x ^ y ^ z
  }

  function Maj(x: Word, y: Word, z: Word): Word {
    (x & y) ^ (x & z) ^ (y & z)
  }

  /** Section 4.1.1. */
  function F(t: nat, x: Word, y: Word, z: Word): Word {
    if t < 20 then Ch(x, y, z) else if t < 40 then Parity(x, y, z) else if t < 60 then Maj(x, y, z) else Parity(x, y, z)
  }

  /** Section 4.2.1. */
  function K(t: nat): Word {
    if t < 20 then 0x5A827999 else if t < 40 then 0x6ED9EBA1 else if t < 60 then 0x8F1BBCDC else 0xCA62C1D6
  }

  /** Word i of a block, most significant octet first. */
  function BlockWord(block: seq<Octet>, i: nat): Word
    requires |block| == 64 && i < 16
  {
    ((block[4 * i] as Word) << 24) | ((block[4 * i + 1] as Word) << 16) |
    ((block[4 * i + 2] as Word) << 8) | (block[4 * i + 3] as Word)
  }

  /** The message schedule of section 6.1.2, step 1. */
  function W(block: seq<Octet>, t: nat): Word
    requires |block| == 64
  {
    if t < 16 then BlockWord(block, t)
    else Rol(W(block, t - 3) ^ W(block, t - 8) ^ W(block, t - 14) ^ W(block, t - 16), 1)
  }

  /** Addition modulo 2^32. */
  function Plus(x: Word, y: Word): Word {
    x + y
  }

  function Sum5(p: Word, q: Word, r: Word, s: Word, t: Word): Word {
    p + q + r + s + t
  }

  /** One round of step 3. */
  function Round(r: Regs, t: nat, w: Word): Regs {
    Regs(Sum5(Rol(r.a, 5), F(t, r.b, r.c, r.d), r.e, K(t), w), r.a, Rol(r.b, 30), r.c, r.d)
  }

  /** The working variables after the first t rounds. */
  function Rounds(h: Regs, block: seq<Octet>, t: nat): Regs
    requires |block| == 64
  {
    if t == 0 then h else Round(Rounds(h, block, t - 1), t - 1, W(block, t - 1))
  }

  /** Steps 1 to 4: the hash value after one block. */
  function Compress(h: Regs, block: seq<Octet>): Regs
    requires |block| == 64
  {
    var r := Rounds(h, block, 80);
    Regs(Plus(h.a, r.a), Plus(h.b, r.b), Plus(h.c, r.c), Plus(h.d, r.d), Plus(h.e, r.e))
  }

  /** The hash value after all whole blocks of a message. */
  function HashBlocks(h: Regs, m: seq<Octet>): Regs
    decreases |m|
  {
    if |m| < 64 then h else HashBlocks(Compress(h, m[..64]), m[64..])
  }

  lemma {:induction false} HashBlocksSplit(h: Regs, m: seq<Octet>, n: seq<Octet>)
    requires |m| % 64 == 0
    ensures HashBlocks(h, m + n) == HashBlocks(HashBlocks(h, m), n)
    decreases |m|
  {
    if m == [] {
      assert m + n == n;
    } else {
      assert (m + n)[..64] == m[..64] && (m + n)[64..] == m[64..] + n;
      HashBlocksSplit(Compress(h, m[..64]), m[64..], n);
    }
  }

  /** One more block. */
  lemma HashBlocksSnoc(h: Regs, m: seq<Octet>, block: seq<Octet>)
    requires |m| % 64 == 0 && |block| == 64
    ensures HashBlocks(h, m + block) == Compress(HashBlocks(h, m), block)
  {
    HashBlocksSplit(h, m, block);
    assert block[..64] == block;
  }

  /** An incomplete block at the end does not matter. */
  lemma HashBlocksTail(h: Regs, m: seq<Octet>, tail: seq<Octet>)
    requires |m| % 64 == 0 && |tail| < 64
    ensures HashBlocks(h, m + tail) == HashBlocks(h, m)
  {
    HashBlocksSplit(h, m, tail);
  }

  function LowOctet(n: nat): Octet {
    (n % 0x100) as Octet
  }

  /** The most significant octet of a 32-bit number, and so on down. */
  function Octets32(n: nat): (s: seq<Octet>)
    requires n < 0x1_0000_0000
    ensures |s| == 4
  {
    [LowOctet(n / 0x100_0000), LowOctet(n / 0x1_0000), LowOctet(n / 0x100), LowOctet(n)]
  }

  /** A number of bits as 64 bits; SHA-1 is defined for messages shorter than that. */
  function LengthField(bits: nat): seq<Octet> {
    Octets32(bits / 0x1_0000_0000 % 0x1_0000_0000) + Octets32(bits % 0x1_0000_0000)
  }

  function ZeroPad(len: nat): nat {
    (119 - len % 64) % 64
  }

  function Zeros(n: nat): (s: seq<Octet>)
    ensures |s| == n && forall i :: 0 <= i < n ==> s[i] == 0
  {
    if n == 0 then [] else Zeros(n - 1) + [0]
  }

  /** Section 5.1.1. */
  function Padded(m: seq<Octet>): seq<Octet> {
    m + [0x80] + Zeros(ZeroPad(|m|)) + LengthField(8 * |m|)
  }

  /** A word as four octets, most significant first. */
  function WordOctets(w: Word): seq<Octet> {
    [((w >> 24) & 0xff) as Octet, ((w >> 16) & 0xff) as Octet, ((w >> 8) & 0xff) as Octet, (w & 0xff) as Octet]
  }

  function RegsOctets(h: Regs): seq<Octet> {
    WordOctets(h.a) + WordOctets(h.b) + WordOctets(h.c) + WordOctets(h.d) + WordOctets(h.e)
  }

  /** The message digest, section 6.1.2. */
  function Digest(m: seq<Octet>): seq<Octet> {
    RegsOctets(HashBlocks(H0, Padded(m)))
  }

  lemma PadLength(len: nat)
    ensures (len + 1 + ZeroPad(len) + 8) % 64 == 0 && ZeroPad(len) < 64
  {
  }

  /** The padded message is a whole number of blocks: one more than the message needs. */
  lemma PaddedLength(m: seq<Octet>)
    ensures |Padded(m)| % 64 == 0
    ensures |m| + 9 <= |Padded(m)| <= |m| + 72
  {
    PadLength(|m|);
    hide ZeroPad, Octets32;
  }
}
