/** SHA-256 as FIPS 180-4 defines it, on 32-bit words. */
module Sha256Spec {
  import opened Bytes
  import opened Blocks

  type Word = bv32

  // ---- section 4.1.2: the functions ----

  function Rotr(x: Word, n: bv6): Word
    requires n < 32
  {
    (x >> n) | (x << (32 - n))
  }

  function Shr(x: Word, n: bv6): Word
    requires n < 32
  {
    x >> n
  }

  function Ch(x: Word, y: Word, z: Word): Word { (x & y) ^ (!x & z) }

  function Maj(x: Word, y: Word, z: Word): Word { (x & y) ^ (x & z) ^ (y & z) }

  function BigSigma0(x: Word): Word { Rotr(x, 2) ^ Rotr(x, 13) ^ Rotr(x, 22) }

  function BigSigma1(x: Word): Word { Rotr(x, 6) ^ Rotr(x, 11) ^ Rotr(x, 25) }

  function SmallSigma0(x: Word): Word { Rotr(x, 7) ^ Rotr(x, 18) ^ Shr(x, 3) }

  function SmallSigma1(x: Word): Word { Rotr(x, 17) ^ Rotr(x, 19) ^ Shr(x, 10) }

  /** The constants of the rounds, in rows of eight. */
  const CONSTANTS: seq<seq<Word>> := [
    [0x428a2f98, 0x71374491, 0xb5c0fbcf, 0xe9b5dba5, 0x3956c25b, 0x59f111f1, 0x923f82a4, 0xab1c5ed5],
    [0xd807aa98, 0x12835b01, 0x243185be, 0x550c7dc3, 0x72be5d74, 0x80deb1fe, 0x9bdc06a7, 0xc19bf174],
    [0xe49b69c1, 0xefbe4786, 0x0fc19dc6, 0x240ca1cc, 0x2de92c6f, 0x4a7484aa, 0x5cb0a9dc, 0x76f988da],
    [0x983e5152, 0xa831c66d, 0xb00327c8, 0xbf597fc7, 0xc6e00bf3, 0xd5a79147, 0x06ca6351, 0x14292967],
    [0x27b70a85, 0x2e1b2138, 0x4d2c6dfc, 0x53380d13, 0x650a7354, 0x766a0abb, 0x81c2c92e, 0x92722c85],
    [0xa2bfe8a1, 0xa81a664b, 0xc24b8b70, 0xc76c51a3, 0xd192e819, 0xd6990624, 0xf40e3585, 0x106aa070],
    [0x19a4c116, 0x1e376c08, 0x2748774c, 0x34b0bcb5, 0x391c0cb3, 0x4ed8aa4a, 0x5b9cca4f, 0x682e6ff3],
    [0x748f82ee, 0x78a5636f, 0x84c87814, 0x8cc70208, 0x90befffa, 0xa4506ceb, 0xbef9a3f7, 0xc67178f2]]

  const INITIAL: seq<Word> := [
    0x6a09e667, 0xbb67ae85, 0x3c6ef372, 0xa54ff53a, 0x510e527f, 0x9b05688c, 0x1f83d9ab, 0x5be0cd19]

  lemma TableSizes()
    ensures |CONSTANTS| == 8 && |INITIAL| == 8
    ensures |CONSTANTS[0]| == |CONSTANTS[1]| == |CONSTANTS[2]| == |CONSTANTS[3]| == 8
    ensures |CONSTANTS[4]| == |CONSTANTS[5]| == |CONSTANTS[6]| == |CONSTANTS[7]| == 8
  {
  }

  /** The constant of a round. */
  function RoundConstant(t: nat): Word
    requires t < 64
  {
    TableSizes();
    CONSTANTS[t / 8][t % 8]
  }

  // ---- section 6.2: the hash computation, where addition is modulo 2^32 ----

  function Plus(a: Word, b: Word): Word { a + b }

  function Sum(a: Word, b: Word, c: Word): Word { a + b + c }

  const BLOCK_LENGTH := 64
  const DIGEST_LENGTH := 32

  function Wide(b: Byte): Word { (b as bv8) as bv32 }

  /** The word of four bytes, most significant first. */
  function Join(b0: Byte, b1: Byte, b2: Byte, b3: Byte): Word {
    (Wide(b0) << 24) | (Wide(b1) << 16) | (Wide(b2) << 8) | Wide(b3)
  }

  /** The four bytes of a word, most significant first. */
  function WordToBytes(w: Word): (b: seq<Byte>)
    ensures |b| == 4
  {
    [ByteOf(w >> 24), ByteOf(w >> 16), ByteOf(w >> 8), ByteOf(w)]
  }

  /** The low byte of a word. */
  function ByteOf(w: Word): Byte { ((w & 0xff) as bv8) as Byte }

  /** Word j of a block. */
  function BeWord(block: seq<Byte>, j: nat): Word
    requires 4 * j + 4 <= |block|
  {
    Join(block[4 * j], block[4 * j + 1], block[4 * j + 2], block[4 * j + 3])
  }

  /** The message schedule of 64 words. */
  function Schedule(block: seq<Byte>, t: nat): Word
    requires |block| == BLOCK_LENGTH
  {
    if t < 16 then BeWord(block, t)
    else
      Plus(Schedule(block, t - 16),
           Sum(SmallSigma1(Schedule(block, t - 2)), Schedule(block, t - 7), SmallSigma0(Schedule(block, t - 15))))
  }

  datatype Registers = Registers(a: Word, b: Word, c: Word, d: Word, e: Word, f: Word, g: Word, h: Word)

  function Load(s: seq<Word>): Registers
    requires |s| == 8
  {
    Registers(s[0], s[1], s[2], s[3], s[4], s[5], s[6], s[7])
  }

  function Round(r: Registers, k: Word, w: Word): Registers {
    var t1 := r.h + BigSigma1(r.e) + Ch(r.e, r.f, r.g) + k + w;
    var t2 := BigSigma0(r.a) + Maj(r.a, r.b, r.c);
    Registers(t1 + t2, r.a, r.b, r.c, r.d + t1, r.e, r.f, r.g)
  }

  /** The working variables after t rounds. */
  function Rounds(s: seq<Word>, block: seq<Byte>, t: nat): Registers
    requires |s| == 8 && |block| == BLOCK_LENGTH && t <= 64
  {
    if t == 0 then Load(s) else Round(Rounds(s, block, t - 1), RoundConstant(t - 1), Schedule(block, t - 1))
  }

  function AddRegisters(s: seq<Word>, r: Registers): (t: seq<Word>)
    requires |s| == 8
    ensures |t| == 8
  {
    [Plus(s[0], r.a), Plus(s[1], r.b), Plus(s[2], r.c), Plus(s[3], r.d),
     Plus(s[4], r.e), Plus(s[5], r.f), Plus(s[6], r.g), Plus(s[7], r.h)]
  }

  function Compress(s: seq<Word>, block: seq<Byte>): (t: seq<Word>)
    requires |s| == 8 && |block| == BLOCK_LENGTH
    ensures |t| == 8
  {
    AddRegisters(s, Rounds(s, block, 64))
  }

  /** The length of the whole blocks in len bytes. */
  function Whole(len: nat): (n: nat)
    ensures n <= len < n + BLOCK_LENGTH && n % BLOCK_LENGTH == 0 && (n > 0 ==> n >= BLOCK_LENGTH)
  {
    len - len % BLOCK_LENGTH
  }

  lemma WholeIs(len: nat, n: nat)
    requires n <= len < n + BLOCK_LENGTH && n % BLOCK_LENGTH == 0
    ensures Whole(len) == n && len % BLOCK_LENGTH == len - n
  {
  }

  /** The hash value after the whole blocks of data; a part of a block at the end counts for nothing. */
  function HashBlocks(data: seq<Byte>): (s: seq<Word>)
    ensures |s| == 8
  {
    TableSizes();
    var n := Whole(|data|);
    if n == 0 then INITIAL
    else Compress(HashBlocks(data[..n - BLOCK_LENGTH]), data[n - BLOCK_LENGTH..n])
  }

  lemma HashUnfolds(data: seq<Byte>, n: nat)
    requires n == Whole(|data|)
    ensures n == 0 ==> HashBlocks(data) == INITIAL
    ensures n > 0 ==> HashBlocks(data) == Compress(HashBlocks(data[..n - BLOCK_LENGTH]), data[n - BLOCK_LENGTH..n])
  {
    hide Compress, Whole;
  }

  lemma PaddedLength(len: nat, used: nat, n: nat)
    requires used == len % BLOCK_LENGTH && (used + n == BLOCK_LENGTH || used + n == 2 * BLOCK_LENGTH)
    ensures (len + n) % BLOCK_LENGTH == 0
  {
  }

  /** Section 5.1.1: a one bit, the fewest zeros, and the length in bits. */
  function Padding(len: nat): (p: seq<Byte>)
    ensures (len + |p|) % BLOCK_LENGTH == 0 && 9 <= |p| <= 72
  {
    var used := len % BLOCK_LENGTH;
    var zeros := if used < 56 then 55 - used else 119 - used;
    PaddedLength(len, used, 1 + zeros + 8);
    [0x80] + Zeros(zeros) + BigEndian(8 * len, 8)
  }

  function WordBytes(s: seq<Word>): (b: seq<Byte>)
    ensures |b| == 4 * |s|
  {
    if s == [] then [] else WordBytes(s[..|s| - 1]) + WordToBytes(s[|s| - 1])
  }

  function Sha256(msg: seq<Byte>): (d: seq<Byte>)
    ensures |d| == DIGEST_LENGTH
  {
    WordBytes(HashBlocks(msg + Padding(|msg|)))
  }
}
