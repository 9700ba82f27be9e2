/**
 SHA-1 as the Secure Hash Standard (FIPS 180-4) defines it: the reference that
 the streaming implementation in Sha1.dfy is proved against.
 Section numbers in comments are those of FIPS 180-4.
 */
module Fips180 {
  import opened Basics

  type byte = bv8
  type word = bv32

  /** The working variables a..e, and also the five-word hash value H0..H4. */
  datatype Vars = Vars(a: word, b: word, c: word, d: word, e: word)

  /** Addition modulo 2^32, section 2.2.1. */
  function Plus(x: word, y: word): word { x + y }

  function Plus5(x0: word, x1: word, x2: word, x3: word, x4: word): word { x0 + x1 + x2 + x3 + x4 }

  // Circular left shifts by the three distances SHA-1 uses, section 3.2.
  function RotL1(x: word): word { (x << 1) | (x >> 31) }

  function RotL5(x: word): word { (x << 5) | (x >> 27) }

  function RotL30(x: word): word { (x << 30) | (x >> 2) }

  // The three logical functions, section 4.1.1.
  function Ch(x: word, y: word, z: word): word { (x & y) ^ (!x & z) }

  function Parity(x: word, y: word, z: word): word { x ^ y ^ z }

  function Maj(x: word, y: word, z: word): word { (x & y) ^ (x & z) ^ (y & z) }

  function F(t: nat, x: word, y: word, z: word): word
    requires t < 80
  {
    if t < 20 then Ch(x, y, z)
    else if 40 <= t < 60 then Maj(x, y, z)
    else Parity(x, y, z)
  }

  /** The round constants, section 4.2.1. */
  function K(t: nat): word
    requires t < 80
  {
    if t < 20 then 0x5a827999
    else if t < 40 then 0x6ed9eba1
    else if t < 60 then 0x8f1bbcdc
    else 0xca62c1d6
  }

  /** The initial hash value, section 5.3.1. */
  const H0 := Vars(0x67452301, 0xefcdab89, 0x98badcfe, 0x10325476, 0xc3d2e1f0)

  /** A big-endian 32-bit word made of four bytes, section 3.1. */
  function WordBE(b0: byte, b1: byte, b2: byte, b3: byte): word {
    ((b0 as word) << 24) | ((b1 as word) << 16) | ((b2 as word) << 8) | (b3 as word)
  }

  function WordBytesBE(w: word): (s: seq<byte>)
    ensures |s| == 4
  {
    [((w >> 24) & 0xff) as byte, ((w >> 16) & 0xff) as byte, ((w >> 8) & 0xff) as byte, (w & 0xff) as byte]
  }

  function NewW(x3: word, x8: word, x14: word, x16: word): word { RotL1(x3 ^ x8 ^ x14 ^ x16) }

  /** The message schedule W_t of one 64-byte block, section 6.1.2 step 1. */
  function Schedule(block: seq<byte>, t: nat): word
    requires |block| == 64
  {
    if t < 16 then
      WordBE(block[4 * t], block[4 * t + 1], block[4 * t + 2], block[4 * t + 3])
    else
      NewW(Schedule(block, t - 3), Schedule(block, t - 8), Schedule(block, t - 14), Schedule(block, t - 16))
  }

  /** The new value of a, the T of section 6.1.2 step 3. */
  function NewA(v: Vars, t: nat, w: word): word
    requires t < 80
  {
    Plus5(RotL5(v.a), F(t, v.b, v.c, v.d), v.e, K(t), w)
  }

  /** One iteration of section 6.1.2 step 3. */
  function Round(v: Vars, t: nat, w: word): Vars
    requires t < 80
  {
    Vars(NewA(v, t, w), v.a, RotL30(v.b), v.c, v.d)
  }

  /** The schedule W_0 .. W_79 of a block. */
  function ScheduleWords(block: seq<byte>): (s: seq<word>)
    requires |block| == 64
    ensures |s| == 80
    ensures forall t | 0 <= t < 80 :: s[t] == Schedule(block, t)
  {
    seq(80, t requires 0 <= t < 80 => Schedule(block, t))
  }

  /** The working variables after one iteration for each word of s. */
  function Rounds(h: Vars, s: seq<word>): Vars
    requires |s| <= 80
  {
    if s == [] then h else Round(Rounds(h, s[..|s| - 1]), |s| - 1, s[|s| - 1])
  }

  function AddVars(h: Vars, v: Vars): Vars {
    Vars(Plus(h.a, v.a), Plus(h.b, v.b), Plus(h.c, v.c), Plus(h.d, v.d), Plus(h.e, v.e))
  }

  /** The intermediate hash value after one more block, section 6.1.2. */
  function Compress(h: Vars, block: seq<byte>): Vars
    requires |block| == 64
  {
    AddVars(h, Rounds(h, ScheduleWords(block)))
  }

  /** The intermediate hash value after every block of m. */
  function Fold(h: Vars, m: seq<byte>): Vars
    requires |m| % 64 == 0
  {
    if m == [] then h else Compress(Fold(h, m[..|m| - 64]), m[|m| - 64..])
  }

  /** The k least significant base-256 digits of n, most significant first. */
  function BigEndian(n: nat, k: nat): (s: seq<byte>)
    ensures |s| == k
  {
    if k == 0 then [] else BigEndian(n / 256, k - 1) + [(n % 256) as byte]
  }

  /** Section 5.1.1 counts bits: the smallest k >= 0 with l + 1 + k == 448 mod 512.
      For whole bytes this is the number of zero bytes after the byte 0x80. */
  function ZeroPad(n: nat): (k: nat)
    ensures k < 64 && (n + 1 + k + 8) % 64 == 0
  {
    (55 - n) % 64
  }

  /** Section 5.1.1. The standard only defines it for messages of less than
      2^64 bits; for longer ones BigEndian keeps the length modulo 2^64. */
  function Pad(m: seq<byte>): (p: seq<byte>)
    ensures |p| % 64 == 0
  {
    PadWith(m, BigEndian(8 * |m|, 8))
  }

  function PadWith(m: seq<byte>, length: seq<byte>): (p: seq<byte>)
    requires |length| == 8
    ensures |p| % 64 == 0
  {
    m + [0x80] + Repeat(0, ZeroPad(|m|)) + length
  }

  function HashBytes(v: Vars): (s: seq<byte>)
    ensures |s| == 20
  {
    WordBytesBE(v.a) + WordBytesBE(v.b) + WordBytesBE(v.c) + WordBytesBE(v.d) + WordBytesBE(v.e)
  }

  /** The 160-bit message digest, section 6.1. */
  function Digest(m: seq<byte>): (s: seq<byte>)
    ensures |s| == 20
  {
    HashBytes(Fold(H0, Pad(m)))
  }
}
