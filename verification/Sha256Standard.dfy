/** The functions and the constants of FIPS 180-4, by laws that do not refer to how Sha256Words computes them. */
module Sha256Standard {
  import opened Sha256
  import opened Sha256Words

  // ---------- section 4.1.2: the functions ----------

  lemma Rotations(x: Word)
    ensures BigSigma0(x) == x.RotateRight(2) ^ x.RotateRight(13) ^ x.RotateRight(22)
    ensures BigSigma1(x) == x.RotateRight(6) ^ x.RotateRight(11) ^ x.RotateRight(25)
    ensures SmallSigma0(x) == x.RotateRight(7) ^ x.RotateRight(18) ^ (x >> 3)
    ensures SmallSigma1(x) == x.RotateRight(17) ^ x.RotateRight(19) ^ (x >> 10)
  {
  }

  /** Each bit of the first word chooses between the bits of the other two. */
  lemma Choice(x: Word, y: Word, z: Word)
    ensures Ch(x, y, z) & x == y & x && Ch(x, y, z) & !x == z & !x
  {
  }

  /** Where two words agree the result is theirs, and where they differ the third decides. */
  lemma Majority(x: Word, y: Word, z: Word)
    ensures (Maj(x, y, z) ^ x) & !(x ^ y) == 0 && (Maj(x, y, z) ^ z) & (x ^ y) == 0
  {
  }

  // ---------- sections 4.2.2 and 5.3.3: the constants ----------

  const TWO_32: nat := 0x1_0000_0000

  /** `n` is the cube root of `p` with 32 bits, or eight hexadecimal digits, behind the point. */
  predicate Cube(n: nat, p: nat) { n * n * n <= p * (TWO_32 * TWO_32 * TWO_32) < (n + 1) * (n + 1) * (n + 1) }

  predicate Square(n: nat, p: nat) { n * n <= p * (TWO_32 * TWO_32) < (n + 1) * (n + 1) }

  /** The constants are the digits behind the point of the cube roots of the first 64 primes. */
  lemma CubeRoots0()
    ensures Cube(0x1_428a2f98, 2) && Cube(0x1_71374491, 3) && Cube(0x1_b5c0fbcf, 5) && Cube(0x1_e9b5dba5, 7)
    ensures Cube(0x2_3956c25b, 11) && Cube(0x2_59f111f1, 13) && Cube(0x2_923f82a4, 17) && Cube(0x2_ab1c5ed5, 19)
    ensures Cube(0x2_d807aa98, 23) && Cube(0x3_12835b01, 29) && Cube(0x3_243185be, 31) && Cube(0x3_550c7dc3, 37)
    ensures Cube(0x3_72be5d74, 41) && Cube(0x3_80deb1fe, 43) && Cube(0x3_9bdc06a7, 47) && Cube(0x3_c19bf174, 53)
    ensures KRow(0) == [0x428a2f98, 0x71374491, 0xb5c0fbcf, 0xe9b5dba5, 0x3956c25b, 0x59f111f1, 0x923f82a4, 0xab1c5ed5]
    ensures KRow(1) == [0xd807aa98, 0x12835b01, 0x243185be, 0x550c7dc3, 0x72be5d74, 0x80deb1fe, 0x9bdc06a7, 0xc19bf174]
  {
  }

  lemma CubeRoots1()
    ensures Cube(0x3_e49b69c1, 59) && Cube(0x3_efbe4786, 61) && Cube(0x4_0fc19dc6, 67) && Cube(0x4_240ca1cc, 71)
    ensures Cube(0x4_2de92c6f, 73) && Cube(0x4_4a7484aa, 79) && Cube(0x4_5cb0a9dc, 83) && Cube(0x4_76f988da, 89)
    ensures Cube(0x4_983e5152, 97) && Cube(0x4_a831c66d, 101) && Cube(0x4_b00327c8, 103) && Cube(0x4_bf597fc7, 107)
    ensures Cube(0x4_c6e00bf3, 109) && Cube(0x4_d5a79147, 113) && Cube(0x5_06ca6351, 127) && Cube(0x5_14292967, 131)
    ensures KRow(2) == [0xe49b69c1, 0xefbe4786, 0x0fc19dc6, 0x240ca1cc, 0x2de92c6f, 0x4a7484aa, 0x5cb0a9dc, 0x76f988da]
    ensures KRow(3) == [0x983e5152, 0xa831c66d, 0xb00327c8, 0xbf597fc7, 0xc6e00bf3, 0xd5a79147, 0x06ca6351, 0x14292967]
  {
  }

  lemma CubeRoots2()
    ensures Cube(0x5_27b70a85, 137) && Cube(0x5_2e1b2138, 139) && Cube(0x5_4d2c6dfc, 149) && Cube(0x5_53380d13, 151)
    ensures Cube(0x5_650a7354, 157) && Cube(0x5_766a0abb, 163) && Cube(0x5_81c2c92e, 167) && Cube(0x5_92722c85, 173)
    ensures Cube(0x5_a2bfe8a1, 179) && Cube(0x5_a81a664b, 181) && Cube(0x5_c24b8b70, 191) && Cube(0x5_c76c51a3, 193)
    ensures Cube(0x5_d192e819, 197) && Cube(0x5_d6990624, 199) && Cube(0x5_f40e3585, 211) && Cube(0x6_106aa070, 223)
    ensures KRow(4) == [0x27b70a85, 0x2e1b2138, 0x4d2c6dfc, 0x53380d13, 0x650a7354, 0x766a0abb, 0x81c2c92e, 0x92722c85]
    ensures KRow(5) == [0xa2bfe8a1, 0xa81a664b, 0xc24b8b70, 0xc76c51a3, 0xd192e819, 0xd6990624, 0xf40e3585, 0x106aa070]
  {
  }

  lemma CubeRoots3()
    ensures Cube(0x6_19a4c116, 227) && Cube(0x6_1e376c08, 229) && Cube(0x6_2748774c, 233) && Cube(0x6_34b0bcb5, 239)
    ensures Cube(0x6_391c0cb3, 241) && Cube(0x6_4ed8aa4a, 251) && Cube(0x6_5b9cca4f, 257) && Cube(0x6_682e6ff3, 263)
    ensures Cube(0x6_748f82ee, 269) && Cube(0x6_78a5636f, 271) && Cube(0x6_84c87814, 277) && Cube(0x6_8cc70208, 281)
    ensures Cube(0x6_90befffa, 283) && Cube(0x6_a4506ceb, 293) && Cube(0x6_bef9a3f7, 307) && Cube(0x6_c67178f2, 311)
    ensures KRow(6) == [0x19a4c116, 0x1e376c08, 0x2748774c, 0x34b0bcb5, 0x391c0cb3, 0x4ed8aa4a, 0x5b9cca4f, 0x682e6ff3]
    ensures KRow(7) == [0x748f82ee, 0x78a5636f, 0x84c87814, 0x8cc70208, 0x90befffa, 0xa4506ceb, 0xbef9a3f7, 0xc67178f2]
  {
  }

  /** The initial values are those of the square roots of the first eight. */
  lemma SquareRoots()
    ensures Square(0x1_6a09e667, 2) && Square(0x1_bb67ae85, 3) && Square(0x2_3c6ef372, 5) && Square(0x2_a54ff53a, 7)
    ensures Square(0x3_510e527f, 11) && Square(0x3_9b05688c, 13) && Square(0x4_1f83d9ab, 17) && Square(0x4_5be0cd19, 19)
    ensures Words32().iv ==
      Vars(0x6a09e667, 0xbb67ae85, 0x3c6ef372, 0xa54ff53a, 0x510e527f, 0x9b05688c, 0x1f83d9ab, 0x5be0cd19)
  {
  }
}
