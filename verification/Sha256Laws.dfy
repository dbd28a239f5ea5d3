/** FIPS 180-4: its functions, constants and padding. */
module Sha256Laws {
  import opened Arith
  import opened Numerals
  import opened Bytes
  import opened Blocks
  import opened Sha256Spec

  // ---- the functions of a round, bit by bit ----

  /** Bit i of a word. Positions are counted modulo 32, so that i + n goes around the end. */
  predicate Bit(x: Word, i: bv5) { (x >> i) & 1 == 1 }

  /** Whether an odd number of the three holds. */
  predicate Parity(a: bool, b: bool, c: bool) { (a != b) != c }

  lemma XorTwo(a: Word, b: Word, i: bv5)
    ensures Bit(a ^ b, i) == (Bit(a, i) != Bit(b, i))
  {
  }

  lemma XorBit(a: Word, b: Word, c: Word, i: bv5)
    ensures Bit(Xor3(a, b, c), i) == Parity(Bit(a, i), Bit(b, i), Bit(c, i))
  {
    hide Bit;
    XorTwo(a, b, i);
    XorTwo(a ^ b, c, i);
  }

  function Xor3(a: Word, b: Word, c: Word): Word { a ^ b ^ c }

  /** What a shift by n brings to position i: nothing from beyond the end. */
  predicate Shifted(x: Word, n: bv5, i: bv5) { i <= 31 - n && Bit(x, i + n) }

  lemma Rotated2(x: Word, i: bv5)
    ensures Bit(Rotr(x, 2), i) == Bit(x, i + 2)
  {
  }

  lemma Rotated13(x: Word, i: bv5)
    ensures Bit(Rotr(x, 13), i) == Bit(x, i + 13)
  {
  }

  lemma Rotated22(x: Word, i: bv5)
    ensures Bit(Rotr(x, 22), i) == Bit(x, i + 22)
  {
  }

  lemma BigSigma0Bit(x: Word, i: bv5)
    ensures Bit(BigSigma0(x), i) == Parity(Bit(x, i + 2), Bit(x, i + 13), Bit(x, i + 22))
  {
    hide Bit, Rotr, Shr, Xor3, Shifted, BigSigma0;
    BigSigma0Is(x);
    Rotated2(x, i);
    Rotated13(x, i);
    Rotated22(x, i);
    XorBit(Rotr(x, 2), Rotr(x, 13), Rotr(x, 22), i);
  }

  lemma BigSigma0Is(x: Word)
    ensures BigSigma0(x) == Xor3(Rotr(x, 2), Rotr(x, 13), Rotr(x, 22))
  {
    hide Rotr, Shr;
  }

  lemma Rotated6(x: Word, i: bv5)
    ensures Bit(Rotr(x, 6), i) == Bit(x, i + 6)
  {
  }

  lemma Rotated11(x: Word, i: bv5)
    ensures Bit(Rotr(x, 11), i) == Bit(x, i + 11)
  {
  }

  lemma Rotated25(x: Word, i: bv5)
    ensures Bit(Rotr(x, 25), i) == Bit(x, i + 25)
  {
  }

  lemma BigSigma1Bit(x: Word, i: bv5)
    ensures Bit(BigSigma1(x), i) == Parity(Bit(x, i + 6), Bit(x, i + 11), Bit(x, i + 25))
  {
    hide Bit, Rotr, Shr, Xor3, Shifted, BigSigma1;
    BigSigma1Is(x);
    Rotated6(x, i);
    Rotated11(x, i);
    Rotated25(x, i);
    XorBit(Rotr(x, 6), Rotr(x, 11), Rotr(x, 25), i);
  }

  lemma BigSigma1Is(x: Word)
    ensures BigSigma1(x) == Xor3(Rotr(x, 6), Rotr(x, 11), Rotr(x, 25))
  {
    hide Rotr, Shr;
  }

  lemma Rotated7(x: Word, i: bv5)
    ensures Bit(Rotr(x, 7), i) == Bit(x, i + 7)
  {
  }

  lemma Rotated18(x: Word, i: bv5)
    ensures Bit(Rotr(x, 18), i) == Bit(x, i + 18)
  {
  }

  lemma Shifted3(x: Word, i: bv5)
    ensures Bit(Shr(x, 3), i) == Shifted(x, 3, i)
  {
  }

  lemma SmallSigma0Bit(x: Word, i: bv5)
    ensures Bit(SmallSigma0(x), i) == Parity(Bit(x, i + 7), Bit(x, i + 18), Shifted(x, 3, i))
  {
    hide Bit, Rotr, Shr, Xor3, Shifted, SmallSigma0;
    SmallSigma0Is(x);
    Rotated7(x, i);
    Rotated18(x, i);
    Shifted3(x, i);
    XorBit(Rotr(x, 7), Rotr(x, 18), Shr(x, 3), i);
  }

  lemma SmallSigma0Is(x: Word)
    ensures SmallSigma0(x) == Xor3(Rotr(x, 7), Rotr(x, 18), Shr(x, 3))
  {
    hide Rotr, Shr;
  }

  lemma Rotated17(x: Word, i: bv5)
    ensures Bit(Rotr(x, 17), i) == Bit(x, i + 17)
  {
  }

  lemma Rotated19(x: Word, i: bv5)
    ensures Bit(Rotr(x, 19), i) == Bit(x, i + 19)
  {
  }

  lemma Shifted10(x: Word, i: bv5)
    ensures Bit(Shr(x, 10), i) == Shifted(x, 10, i)
  {
  }

  lemma SmallSigma1Bit(x: Word, i: bv5)
    ensures Bit(SmallSigma1(x), i) == Parity(Bit(x, i + 17), Bit(x, i + 19), Shifted(x, 10, i))
  {
    hide Bit, Rotr, Shr, Xor3, Shifted, SmallSigma1;
    SmallSigma1Is(x);
    Rotated17(x, i);
    Rotated19(x, i);
    Shifted10(x, i);
    XorBit(Rotr(x, 17), Rotr(x, 19), Shr(x, 10), i);
  }

  lemma SmallSigma1Is(x: Word)
    ensures SmallSigma1(x) == Xor3(Rotr(x, 17), Rotr(x, 19), Shr(x, 10))
  {
    hide Rotr, Shr;
  }

  /** x chooses between the bits of y and z. */
  lemma ChBit(x: Word, y: Word, z: Word, i: bv5)
    ensures Bit(Ch(x, y, z), i) == if Bit(x, i) then Bit(y, i) else Bit(z, i)
  {
    hide Bit, Ch;
    if Bit(x, i) {
      ChTrue(x, y, z, i);
    } else {
      ChFalse(x, y, z, i);
    }
  }

  lemma ChTrue(x: Word, y: Word, z: Word, i: bv5)
    requires Bit(x, i)
    ensures Bit(Ch(x, y, z), i) == Bit(y, i)
  {
  }

  lemma ChFalse(x: Word, y: Word, z: Word, i: bv5)
    requires !Bit(x, i)
    ensures Bit(Ch(x, y, z), i) == Bit(z, i)
  {
  }

  /** The bit that at least two of the three have. */
  lemma MajBit(x: Word, y: Word, z: Word, i: bv5)
    ensures Bit(Maj(x, y, z), i) <==>
      (Bit(x, i) && Bit(y, i)) || (Bit(x, i) && Bit(z, i)) || (Bit(y, i) && Bit(z, i))
  {
    hide Bit, Maj;
    if Bit(x, i) == Bit(y, i) {
      MajAgreed(x, y, z, i);
    } else {
      MajDecided(x, y, z, i);
    }
  }

  lemma MajAgreed(x: Word, y: Word, z: Word, i: bv5)
    requires Bit(x, i) == Bit(y, i)
    ensures Bit(Maj(x, y, z), i) == Bit(x, i)
  {
  }

  lemma MajDecided(x: Word, y: Word, z: Word, i: bv5)
    requires Bit(x, i) != Bit(y, i)
    ensures Bit(Maj(x, y, z), i) == Bit(z, i)
  {
  }

  // ---- the constants ----

  const TWO_32: nat := 0x1_0000_0000

  /** The first sixty-four primes, in rows of eight. */
  const PRIMES: seq<seq<nat>> := [
    [2, 3, 5, 7, 11, 13, 17, 19],
    [23, 29, 31, 37, 41, 43, 47, 53],
    [59, 61, 67, 71, 73, 79, 83, 89],
    [97, 101, 103, 107, 109, 113, 127, 131],
    [137, 139, 149, 151, 157, 163, 167, 173],
    [179, 181, 191, 193, 197, 199, 211, 223],
    [227, 229, 233, 239, 241, 251, 257, 263],
    [269, 271, 277, 281, 283, 293, 307, 311]]

  lemma RowSizes()
    ensures |PRIMES| == 8
    ensures |PRIMES[0]| == |PRIMES[1]| == |PRIMES[2]| == |PRIMES[3]| == 8
    ensures |PRIMES[4]| == |PRIMES[5]| == |PRIMES[6]| == |PRIMES[7]| == 8
  {
  }

  function Prime(t: nat): nat
    requires t < 64
  {
    RowSizes();
    PRIMES[t / 8][t % 8]
  }

  /** The integer parts of the roots of numbers up to 342. */
  function SquareRoot(p: nat): nat { if p < 4 then 1 else if p < 9 then 2 else if p < 16 then 3 else 4 }

  function CubeRoot(p: nat): nat {
    if p < 8 then 1 else if p < 27 then 2 else if p < 64 then 3 else if p < 125 then 4 else if p < 216 then 5 else 6
  }

  /** k is the first 32 bits of the fractional part of the square root of p, whose integer part is s. */
  predicate SquareRootBits(p: nat, s: nat, k: nat) {
    var c := s * TWO_32 + k;
    s * s <= p < (s + 1) * (s + 1) && c * c <= p * (TWO_32 * TWO_32) < (c + 1) * (c + 1)
  }

  /** The same of the cube root. */
  predicate CubeRootBits(p: nat, s: nat, k: nat) {
    var c := s * TWO_32 + k;
    && s * s * s <= p < (s + 1) * (s + 1) * (s + 1)
    && c * c * c <= p * (TWO_32 * TWO_32 * TWO_32) < (c + 1) * (c + 1) * (c + 1)
  }

  /** Section 5.3.3: the initial hash value is from the square roots of the first eight primes. */
  lemma InitialFromRoots(j: nat)
    requires j < 8
    ensures SquareRootBits(Prime(j), SquareRoot(Prime(j)), INITIAL[j] as nat)
  {
    hide SquareRootBits;
    SquareRoots();
    InitialValues();
  }

  lemma SquareRoots()
    ensures SquareRootBits(2, 1, 0x6a09e667)
    ensures SquareRootBits(3, 1, 0xbb67ae85)
    ensures SquareRootBits(5, 2, 0x3c6ef372)
    ensures SquareRootBits(7, 2, 0xa54ff53a)
    ensures SquareRootBits(11, 3, 0x510e527f)
    ensures SquareRootBits(13, 3, 0x9b05688c)
    ensures SquareRootBits(17, 4, 0x1f83d9ab)
    ensures SquareRootBits(19, 4, 0x5be0cd19)
  {
  }

  lemma InitialValues()
    ensures Prime(0) == 2 && INITIAL[0] == 0x6a09e667
    ensures Prime(1) == 3 && INITIAL[1] == 0xbb67ae85
    ensures Prime(2) == 5 && INITIAL[2] == 0x3c6ef372
    ensures Prime(3) == 7 && INITIAL[3] == 0xa54ff53a
    ensures Prime(4) == 11 && INITIAL[4] == 0x510e527f
    ensures Prime(5) == 13 && INITIAL[5] == 0x9b05688c
    ensures Prime(6) == 17 && INITIAL[6] == 0x1f83d9ab
    ensures Prime(7) == 19 && INITIAL[7] == 0x5be0cd19
  {
  }

  /** Section 4.2.2: the round constants are from the cube roots of the first sixty-four primes. */
  lemma ConstantsFromRoots(t: nat)
    requires t < 64
    ensures CubeRootBits(Prime(t), CubeRoot(Prime(t)), RoundConstant(t) as nat)
  {
    hide CubeRootBits;
    match t / 8
    case 0 => Roots0(t);
    case 1 => Roots1(t);
    case 2 => Roots2(t);
    case 3 => Roots3(t);
    case 4 => Roots4(t);
    case 5 => Roots5(t);
    case 6 => Roots6(t);
    case _ => Roots7(t);
  }

  lemma CubeRoots0()
    ensures CubeRootBits(2, 1, 0x428a2f98)
    ensures CubeRootBits(3, 1, 0x71374491)
    ensures CubeRootBits(5, 1, 0xb5c0fbcf)
    ensures CubeRootBits(7, 1, 0xe9b5dba5)
    ensures CubeRootBits(11, 2, 0x3956c25b)
    ensures CubeRootBits(13, 2, 0x59f111f1)
    ensures CubeRootBits(17, 2, 0x923f82a4)
    ensures CubeRootBits(19, 2, 0xab1c5ed5)
  {
  }

  lemma Roots0(t: nat)
    requires t / 8 == 0
    ensures t < 64 && CubeRootBits(Prime(t), CubeRoot(Prime(t)), RoundConstant(t) as nat)
  {
    hide CubeRootBits;
    CubeRoots0();
    RowSizes();
    TableSizes();
    assert PRIMES[0] == [2, 3, 5, 7, 11, 13, 17, 19];
    assert CONSTANTS[0] == [0x428a2f98, 0x71374491, 0xb5c0fbcf, 0xe9b5dba5, 0x3956c25b, 0x59f111f1, 0x923f82a4, 0xab1c5ed5];
  }

  lemma CubeRoots1()
    ensures CubeRootBits(23, 2, 0xd807aa98)
    ensures CubeRootBits(29, 3, 0x12835b01)
    ensures CubeRootBits(31, 3, 0x243185be)
    ensures CubeRootBits(37, 3, 0x550c7dc3)
    ensures CubeRootBits(41, 3, 0x72be5d74)
    ensures CubeRootBits(43, 3, 0x80deb1fe)
    ensures CubeRootBits(47, 3, 0x9bdc06a7)
    ensures CubeRootBits(53, 3, 0xc19bf174)
  {
  }

  lemma Roots1(t: nat)
    requires t / 8 == 1
    ensures t < 64 && CubeRootBits(Prime(t), CubeRoot(Prime(t)), RoundConstant(t) as nat)
  {
    hide CubeRootBits;
    CubeRoots1();
    RowSizes();
    TableSizes();
    assert PRIMES[1] == [23, 29, 31, 37, 41, 43, 47, 53];
    assert CONSTANTS[1] == [0xd807aa98, 0x12835b01, 0x243185be, 0x550c7dc3, 0x72be5d74, 0x80deb1fe, 0x9bdc06a7, 0xc19bf174];
  }

  lemma CubeRoots2()
    ensures CubeRootBits(59, 3, 0xe49b69c1)
    ensures CubeRootBits(61, 3, 0xefbe4786)
    ensures CubeRootBits(67, 4, 0x0fc19dc6)
    ensures CubeRootBits(71, 4, 0x240ca1cc)
    ensures CubeRootBits(73, 4, 0x2de92c6f)
    ensures CubeRootBits(79, 4, 0x4a7484aa)
    ensures CubeRootBits(83, 4, 0x5cb0a9dc)
    ensures CubeRootBits(89, 4, 0x76f988da)
  {
  }

  lemma Roots2(t: nat)
    requires t / 8 == 2
    ensures t < 64 && CubeRootBits(Prime(t), CubeRoot(Prime(t)), RoundConstant(t) as nat)
  {
    hide CubeRootBits;
    CubeRoots2();
    RowSizes();
    TableSizes();
    assert PRIMES[2] == [59, 61, 67, 71, 73, 79, 83, 89];
    assert CONSTANTS[2] == [0xe49b69c1, 0xefbe4786, 0x0fc19dc6, 0x240ca1cc, 0x2de92c6f, 0x4a7484aa, 0x5cb0a9dc, 0x76f988da];
  }

  lemma CubeRoots3()
    ensures CubeRootBits(97, 4, 0x983e5152)
    ensures CubeRootBits(101, 4, 0xa831c66d)
    ensures CubeRootBits(103, 4, 0xb00327c8)
    ensures CubeRootBits(107, 4, 0xbf597fc7)
    ensures CubeRootBits(109, 4, 0xc6e00bf3)
    ensures CubeRootBits(113, 4, 0xd5a79147)
    ensures CubeRootBits(127, 5, 0x06ca6351)
    ensures CubeRootBits(131, 5, 0x14292967)
  {
  }

  lemma Roots3(t: nat)
    requires t / 8 == 3
    ensures t < 64 && CubeRootBits(Prime(t), CubeRoot(Prime(t)), RoundConstant(t) as nat)
  {
    hide CubeRootBits;
    CubeRoots3();
    RowSizes();
    TableSizes();
    assert PRIMES[3] == [97, 101, 103, 107, 109, 113, 127, 131];
    assert CONSTANTS[3] == [0x983e5152, 0xa831c66d, 0xb00327c8, 0xbf597fc7, 0xc6e00bf3, 0xd5a79147, 0x06ca6351, 0x14292967];
  }

  lemma CubeRoots4()
    ensures CubeRootBits(137, 5, 0x27b70a85)
    ensures CubeRootBits(139, 5, 0x2e1b2138)
    ensures CubeRootBits(149, 5, 0x4d2c6dfc)
    ensures CubeRootBits(151, 5, 0x53380d13)
    ensures CubeRootBits(157, 5, 0x650a7354)
    ensures CubeRootBits(163, 5, 0x766a0abb)
    ensures CubeRootBits(167, 5, 0x81c2c92e)
    ensures CubeRootBits(173, 5, 0x92722c85)
  {
  }

  lemma Roots4(t: nat)
    requires t / 8 == 4
    ensures t < 64 && CubeRootBits(Prime(t), CubeRoot(Prime(t)), RoundConstant(t) as nat)
  {
    hide CubeRootBits;
    CubeRoots4();
    RowSizes();
    TableSizes();
    assert PRIMES[4] == [137, 139, 149, 151, 157, 163, 167, 173];
    assert CONSTANTS[4] == [0x27b70a85, 0x2e1b2138, 0x4d2c6dfc, 0x53380d13, 0x650a7354, 0x766a0abb, 0x81c2c92e, 0x92722c85];
  }

  lemma CubeRoots5()
    ensures CubeRootBits(179, 5, 0xa2bfe8a1)
    ensures CubeRootBits(181, 5, 0xa81a664b)
    ensures CubeRootBits(191, 5, 0xc24b8b70)
    ensures CubeRootBits(193, 5, 0xc76c51a3)
    ensures CubeRootBits(197, 5, 0xd192e819)
    ensures CubeRootBits(199, 5, 0xd6990624)
    ensures CubeRootBits(211, 5, 0xf40e3585)
    ensures CubeRootBits(223, 6, 0x106aa070)
  {
  }

  lemma Roots5(t: nat)
    requires t / 8 == 5
    ensures t < 64 && CubeRootBits(Prime(t), CubeRoot(Prime(t)), RoundConstant(t) as nat)
  {
    hide CubeRootBits;
    CubeRoots5();
    RowSizes();
    TableSizes();
    assert PRIMES[5] == [179, 181, 191, 193, 197, 199, 211, 223];
    assert CONSTANTS[5] == [0xa2bfe8a1, 0xa81a664b, 0xc24b8b70, 0xc76c51a3, 0xd192e819, 0xd6990624, 0xf40e3585, 0x106aa070];
  }

  lemma CubeRoots6()
    ensures CubeRootBits(227, 6, 0x19a4c116)
    ensures CubeRootBits(229, 6, 0x1e376c08)
    ensures CubeRootBits(233, 6, 0x2748774c)
    ensures CubeRootBits(239, 6, 0x34b0bcb5)
    ensures CubeRootBits(241, 6, 0x391c0cb3)
    ensures CubeRootBits(251, 6, 0x4ed8aa4a)
    ensures CubeRootBits(257, 6, 0x5b9cca4f)
    ensures CubeRootBits(263, 6, 0x682e6ff3)
  {
  }

  lemma Roots6(t: nat)
    requires t / 8 == 6
    ensures t < 64 && CubeRootBits(Prime(t), CubeRoot(Prime(t)), RoundConstant(t) as nat)
  {
    hide CubeRootBits;
    CubeRoots6();
    RowSizes();
    TableSizes();
    assert PRIMES[6] == [227, 229, 233, 239, 241, 251, 257, 263];
    assert CONSTANTS[6] == [0x19a4c116, 0x1e376c08, 0x2748774c, 0x34b0bcb5, 0x391c0cb3, 0x4ed8aa4a, 0x5b9cca4f, 0x682e6ff3];
  }

  lemma CubeRoots7()
    ensures CubeRootBits(269, 6, 0x748f82ee)
    ensures CubeRootBits(271, 6, 0x78a5636f)
    ensures CubeRootBits(277, 6, 0x84c87814)
    ensures CubeRootBits(281, 6, 0x8cc70208)
    ensures CubeRootBits(283, 6, 0x90befffa)
    ensures CubeRootBits(293, 6, 0xa4506ceb)
    ensures CubeRootBits(307, 6, 0xbef9a3f7)
    ensures CubeRootBits(311, 6, 0xc67178f2)
  {
  }

  lemma Roots7(t: nat)
    requires t / 8 == 7
    ensures t < 64 && CubeRootBits(Prime(t), CubeRoot(Prime(t)), RoundConstant(t) as nat)
  {
    hide CubeRootBits;
    CubeRoots7();
    RowSizes();
    TableSizes();
    assert PRIMES[7] == [269, 271, 277, 281, 283, 293, 307, 311];
    assert CONSTANTS[7] == [0x748f82ee, 0x78a5636f, 0x84c87814, 0x8cc70208, 0x90befffa, 0xa4506ceb, 0xbef9a3f7, 0xc67178f2];
  }

  // ---- the padding ----

  /** Section 5.1.1: a one bit, zeros, and the length in bits, to the next multiple of 512 bits that has room. */
  ghost predicate Pads(len: nat, p: seq<Byte>) {
    && 9 <= |p| < 9 + BLOCK_LENGTH && (len + |p|) % BLOCK_LENGTH == 0
    && p[0] == 0x80
    && (forall k :: 1 <= k < |p| - 8 ==> p[k] == 0)
    && forall k :: 0 <= k < 8 ==> p[|p| - 1 - k] == LengthByte(len, k)
  }

  /** Byte k of the length in bits, from the lowest. */
  function LengthByte(len: nat, k: nat): Byte
  {
    PowPos(256, k);
    8 * len / Pow(256, k) % 256
  }

  lemma {:induction false} BigEndianByte(n: nat, k: nat, i: nat)
    requires i < k
    ensures Pow(256, i) > 0 && BigEndian(n, k)[k - 1 - i] == n / Pow(256, i) % 256
  {
    PowPos(256, i);
    if i == 0 {
      PowZero(256);
    } else {
      BigEndianByte(n / 256, k - 1, i - 1);
      DivTwice(n, Pow(256, i - 1));
    }
  }

  lemma DivTwice(n: nat, p: nat)
    requires p > 0
    ensures n / 256 / p == n / (256 * p)
  {
    DivModIdentity(n / 256, p);
    assert n == (n / 256 / p) * (256 * p) + (256 * (n / 256 % p) + n % 256) by {
      assert (n / 256 / p) * (256 * p) == 256 * ((n / 256 / p) * p);
    }
    DivModUnique(n, 256 * p, n / 256 / p, 256 * (n / 256 % p) + n % 256);
  }

  /** The padding is the one string that the standard asks for. */
  lemma PadsIff(len: nat, p: seq<Byte>)
    ensures Pads(len, p) <==> p == Padding(len)
  {
    hide LengthByte, BigEndian;
    PaddingPads(len);
    if Pads(len, p) {
      SameLength(len, |p|, |Padding(len)|);
      SameString(len, p, Padding(len));
    }
  }

  lemma PaddingPads(len: nat)
    ensures Pads(len, Padding(len))
  {
    hide BigEndian;
    var p := Padding(len);
    forall k | 0 <= k < 8
      ensures p[|p| - 1 - k] == LengthByte(len, k)
    {
      BigEndianByte(8 * len, 8, k);
    }
  }

  lemma SameLength(len: nat, n: nat, m: nat)
    requires 9 <= n < 9 + BLOCK_LENGTH && 9 <= m < 9 + BLOCK_LENGTH
    requires (len + n) % BLOCK_LENGTH == 0 == (len + m) % BLOCK_LENGTH
    ensures n == m
  {
  }

  lemma SameString(len: nat, p: seq<Byte>, q: seq<Byte>)
    requires Pads(len, p) && Pads(len, q) && |p| == |q|
    ensures p == q
  {
    hide LengthByte;
    forall k | 0 <= k < |p|
      ensures p[k] == q[k]
    {
      if k >= |p| - 8 {
        assert p[|p| - 1 - (|p| - 1 - k)] == LengthByte(len, |p| - 1 - k) == q[|q| - 1 - (|p| - 1 - k)];
      }
    }
  }
}
