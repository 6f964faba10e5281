/** SHA-256 round primitives and constant tables (FIPS 180-4, sections 3.2, 4.1.2,
    4.2.2 and 5.3.3), on 32-bit words.

    A word is a `bv32`: its bitwise operators and shifts are those of a Rust `u32`, and
    its `+` wraps modulo 2^32 exactly as `Wrapping<u32>` addition does. The wrapping
    addition is kept behind the function `Add`, which is the one place where the
    model adds two words. */
module ShaPrimitives {

  type Byte = bv8
  type Word = bv32

  /** Size of one message block, in bytes. */
  const BlockSizeBytes: nat := 64

  /** Addition of two `Wrapping<u32>` values: the sum modulo 2^32. */
  function Add(x: Word, y: Word): Word
  {
    x + y
  }

  /** ROTR^rot(val), written with two shifts as the Rust implementation does. A rotation by 0
      would shift a 32-bit value by 32, which the Rust implementation cannot do (the shift
      overflows), so the amount lies in 1..31; every caller passes a constant. */
  function RotR(val: Word, rot: Word): Word
    requires 1 <= rot < 32
  {
    (val >> rot) | (val << (32 - rot))
  }

  /** Ch(x, y, z) (equation 4.2). */
  function Ch(x: Word, y: Word, z: Word): Word
  {
    (x & y) ^ (!x & z)
  }

  /** Maj(x, y, z) (equation 4.3). */
  function Maj(x: Word, y: Word, z: Word): Word
  {
    (x & y) ^ (x & z) ^ (y & z)
  }

  /** Upper-case Sigma 0 (equation 4.4). */
  function BSigma0(x: Word): Word
  {
    RotR(x, 2) ^ RotR(x, 13) ^ RotR(x, 22)
  }

  /** Upper-case Sigma 1 (equation 4.5). */
  function BSigma1(x: Word): Word
  {
    RotR(x, 6) ^ RotR(x, 11) ^ RotR(x, 25)
  }

  /** Lower-case sigma 0 (equation 4.6): two rotations and a plain shift by 3. */
  function LSigma0(x: Word): Word
  {
    RotR(x, 7) ^ RotR(x, 18) ^ (x >> 3)
  }

  /** Lower-case sigma 1 (equation 4.7): two rotations and a plain shift by 10. */
  function LSigma1(x: Word): Word
  {
    RotR(x, 17) ^ RotR(x, 19) ^ (x >> 10)
  }

  /** The two shifts of RotR amount to a true circular rotation to the right
      (ROTR of FIPS 180-4 section 3.2), for every amount the function accepts. */
  lemma RotRIsRotation(val: Word, rot: Word)
    requires 1 <= rot < 32
    ensures RotR(val, rot) == val.RotateRight(rot as nat)
  {
    if rot < 16 {
      RotRLow(val, rot);
    } else {
      RotRHigh(val, rot);
    }
  }

  /** RotRIsRotation for amounts 1..15. */
  lemma RotRLow(val: Word, rot: Word)
    requires 1 <= rot < 16
    ensures RotR(val, rot) == val.RotateRight(rot as nat)
  {
    assert (val >> rot) | (val << (32 - rot)) == val.RotateRight(rot as nat);
  }

  /** RotRIsRotation for amounts 16..31. */
  lemma RotRHigh(val: Word, rot: Word)
    requires 16 <= rot < 32
    ensures RotR(val, rot) == val.RotateRight(rot as nat)
  {
    assert (val >> rot) | (val << (32 - rot)) == val.RotateRight(rot as nat);
  }

  /** Ch is a bitwise choice: where `x` has a 1 the result has the bit of `y`,
      where `x` has a 0 it has the bit of `z`. */
  lemma ChChooses(x: Word, y: Word, z: Word)
    ensures Ch(x, y, z) & x == y & x
    ensures Ch(x, y, z) & !x == z & !x
  {
  }

  /** Maj is a bitwise majority vote: where `x` and `y` agree the result agrees
      with them, and where they differ `z` decides. */
  lemma MajVotes(x: Word, y: Word, z: Word)
    ensures Maj(x, y, z) & !(x ^ y) == x & !(x ^ y)
    ensures Maj(x, y, z) & (x ^ y) == z & (x ^ y)
  {
  }

  /** Initial hash value H(0) (FIPS 180-4 section 5.3.3). */
  const InitialHashState: seq<Word> := [
    0x6a09e667, 0xbb67ae85, 0x3c6ef372, 0xa54ff53a,
    0x510e527f, 0x9b05688c, 0x1f83d9ab, 0x5be0cd19
  ]

  /** Round constants K0..K63 (FIPS 180-4 section 4.2.2). */
  const K: seq<Word> := [
    0x428a2f98, 0x71374491, 0xb5c0fbcf, 0xe9b5dba5,
    0x3956c25b, 0x59f111f1, 0x923f82a4, 0xab1c5ed5,
    0xd807aa98, 0x12835b01, 0x243185be, 0x550c7dc3,
    0x72be5d74, 0x80deb1fe, 0x9bdc06a7, 0xc19bf174,
    0xe49b69c1, 0xefbe4786, 0x0fc19dc6, 0x240ca1cc,
    0x2de92c6f, 0x4a7484aa, 0x5cb0a9dc, 0x76f988da,
    0x983e5152, 0xa831c66d, 0xb00327c8, 0xbf597fc7,
    0xc6e00bf3, 0xd5a79147, 0x06ca6351, 0x14292967,
    0x27b70a85, 0x2e1b2138, 0x4d2c6dfc, 0x53380d13,
    0x650a7354, 0x766a0abb, 0x81c2c92e, 0x92722c85,
    0xa2bfe8a1, 0xa81a664b, 0xc24b8b70, 0xc76c51a3,
    0xd192e819, 0xd6990624, 0xf40e3585, 0x106aa070,
    0x19a4c116, 0x1e376c08, 0x2748774c, 0x34b0bcb5,
    0x391c0cb3, 0x4ed8aa4a, 0x5b9cca4f, 0x682e6ff3,
    0x748f82ee, 0x78a5636f, 0x84c87814, 0x8cc70208,
    0x90befffa, 0xa4506ceb, 0xbef9a3f7, 0xc67178f2
  ]
}
