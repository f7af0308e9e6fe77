/** The words of SHA-256 in libc/src/crypt.c: 32 bits, with the functions of section 4.1.2 and the constants of
    sections 4.2.2 and 5.3.3 of FIPS 180-4. */
module Sha256Words {
  import opened Numbers
  import opened Sha256
  import opened Sha256Stream

  type Word = bv32

  /** Modulo 2^32. */
  function Add(x: Word, y: Word): Word { x + y }

  function Ch(x: Word, y: Word, z: Word): Word { (x & y) ^ ((!x) & z) }

  function Maj(x: Word, y: Word, z: Word): Word { (x & y) ^ (x & z) ^ (y & z) }

  function BigSigma0(x: Word): Word {
    ((x >> 2) | (x << 30)) ^ ((x >> 13) | (x << 19)) ^ ((x >> 22) | (x << 10))
  }

  function BigSigma1(x: Word): Word {
    ((x >> 6) | (x << 26)) ^ ((x >> 11) | (x << 21)) ^ ((x >> 25) | (x << 7))
  }

  function SmallSigma0(x: Word): Word { ((x >> 7) | (x << 25)) ^ ((x >> 18) | (x << 14)) ^ (x >> 3) }

  function SmallSigma1(x: Word): Word { ((x >> 17) | (x << 15)) ^ ((x >> 19) | (x << 13)) ^ (x >> 10) }

  /** The constants, eight at a time. */
  function KRow(r: nat): (k: seq<Word>)
    requires r < 8
    ensures |k| == 8
  {
    if r == 0 then [0x428a2f98, 0x71374491, 0xb5c0fbcf, 0xe9b5dba5, 0x3956c25b, 0x59f111f1, 0x923f82a4, 0xab1c5ed5]
    else if r == 1 then [0xd807aa98, 0x12835b01, 0x243185be, 0x550c7dc3, 0x72be5d74, 0x80deb1fe, 0x9bdc06a7, 0xc19bf174]
    else if r == 2 then [0xe49b69c1, 0xefbe4786, 0x0fc19dc6, 0x240ca1cc, 0x2de92c6f, 0x4a7484aa, 0x5cb0a9dc, 0x76f988da]
    else if r == 3 then [0x983e5152, 0xa831c66d, 0xb00327c8, 0xbf597fc7, 0xc6e00bf3, 0xd5a79147, 0x06ca6351, 0x14292967]
    else if r == 4 then [0x27b70a85, 0x2e1b2138, 0x4d2c6dfc, 0x53380d13, 0x650a7354, 0x766a0abb, 0x81c2c92e, 0x92722c85]
    else if r == 5 then [0xa2bfe8a1, 0xa81a664b, 0xc24b8b70, 0xc76c51a3, 0xd192e819, 0xd6990624, 0xf40e3585, 0x106aa070]
    else if r == 6 then [0x19a4c116, 0x1e376c08, 0x2748774c, 0x34b0bcb5, 0x391c0cb3, 0x4ed8aa4a, 0x5b9cca4f, 0x682e6ff3]
    else [0x748f82ee, 0x78a5636f, 0x84c87814, 0x8cc70208, 0x90befffa, 0xa4506ceb, 0xbef9a3f7, 0xc67178f2]
  }

  function K(): (k: seq<Word>)
    ensures |k| == 64
  {
    KRow(0) + KRow(1) + KRow(2) + KRow(3) + KRow(4) + KRow(5) + KRow(6) + KRow(7)
  }

  function BigEndian(b0: Byte, b1: Byte, b2: Byte, b3: Byte): Word {
    ((b0 as Word) << 24) | ((b1 as Word) << 16) | ((b2 as Word) << 8) | (b3 as Word)
  }

  /** The bytes of a word, highest first (lines 184-188). */
  function Bytes(x: Word): (s: seq<Byte>)
    ensures |s| == 4
  {
    [((x >> 24) as bv8) as int, (((x >> 16) & 0xff) as bv8) as int,
     (((x >> 8) & 0xff) as bv8) as int, ((x & 0xff) as bv8) as int]
  }

  function Digest(v: Vars<Word>): (s: seq<Byte>)
    ensures |s| == 32
  {
    Bytes(v.a) + Bytes(v.b) + Bytes(v.c) + Bytes(v.d) + Bytes(v.e) + Bytes(v.f) + Bytes(v.g) + Bytes(v.h)
  }

  function Words32(): (o: Words<Word>)
    ensures o.Ok()
  {
    Words(Add, Ch, Maj, BigSigma0, BigSigma1, SmallSigma0, SmallSigma1, BigEndian, K(),
          Vars(0x6a09e667, 0xbb67ae85, 0x3c6ef372, 0xa54ff53a, 0x510e527f, 0x9b05688c, 0x1f83d9ab, 0x5be0cd19))
  }

  function Sha(o: Words<Word>): Hash<Vars<Word>>
    requires o.Ok()
  {
    Hash(o.iv, (v, block) => if |block| == BLOCK then Compressed(o, v, block) else v)
  }

  /** sha256_init, sha256_update and sha256_finalize as crypt() uses them, on the salt and then the key. */
  method Sha256Sum(salt: seq<Byte>, key: seq<Byte>) returns (hash: seq<Byte>)
    requires |salt| + |key| < WORD
    ensures var len := |salt| + |key|;
      len % 64 != 55 && len < 0x2000_0000 ==> IsDigest(Sha(Words32()), Digest, salt + key, hash)
  {
    hash := Sum(Sha(Words32()), Digest, salt, key);
  }
}
