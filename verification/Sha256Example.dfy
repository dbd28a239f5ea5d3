/** The standard's example: the digest of "abc", row by row of the schedule and eight rounds at a time. */
module Sha256Example {
  import opened Bytes
  import opened Blocks
  import opened Sha256Spec

  const ABC: seq<Byte> := [0x61, 0x62, 0x63]

  /** The message with its padding is one block. */
  function AbcBlock(): (b: seq<Byte>)
    ensures |b| == BLOCK_LENGTH
  {
    [0x61, 0x62, 0x63, 0x80] + Zeros(52) + [0, 0, 0, 0, 0, 0, 0, 24]
  }

  /** Row i of the schedule. */
  function Row(block: seq<Byte>, i: nat): (w: seq<Word>)
    requires |block| == BLOCK_LENGTH
    ensures |w| == 8
  {
    seq(8, j requires 0 <= j < 8 => Schedule(block, 8 * i + j))
  }

  /** A row of the schedule from the two rows before it. */
  function NextRow(p: seq<Word>, q: seq<Word>): (w: seq<Word>)
    requires |p| == |q| == 8
    ensures |w| == 8
  {
    var w0, w1 := Mix(p[0], p[1], q[1], q[6]), Mix(p[1], p[2], q[2], q[7]);
    var w2, w3 := Mix(p[2], p[3], q[3], w0), Mix(p[3], p[4], q[4], w1);
    var w4, w5 := Mix(p[4], p[5], q[5], w2), Mix(p[5], p[6], q[6], w3);
    var w6, w7 := Mix(p[6], p[7], q[7], w4), Mix(p[7], q[0], w0, w5);
    [w0, w1, w2, w3, w4, w5, w6, w7]
  }

  function Mix(a: Word, b: Word, c: Word, d: Word): Word { Plus(a, Sum(SmallSigma1(d), c, SmallSigma0(b))) }

  lemma RowFollows(block: seq<Byte>, i: nat)
    requires |block| == BLOCK_LENGTH
    ensures Row(block, i + 2) == NextRow(Row(block, i), Row(block, i + 1))
  {
    hide Schedule, Mix;
    var p, q, w := Row(block, i), Row(block, i + 1), Row(block, i + 2);
    MixWord(block, 8 * i + 16);
    MixWord(block, 8 * i + 17);
    MixWord(block, 8 * i + 18);
    MixWord(block, 8 * i + 19);
    MixWord(block, 8 * i + 20);
    MixWord(block, 8 * i + 21);
    MixWord(block, 8 * i + 22);
    MixWord(block, 8 * i + 23);
  }

  lemma MixWord(block: seq<Byte>, t: nat)
    requires |block| == BLOCK_LENGTH && t >= 16
    ensures Schedule(block, t) == Mix(Schedule(block, t - 16), Schedule(block, t - 15), Schedule(block, t - 7), Schedule(block, t - 2))
  {
    hide SmallSigma0, SmallSigma1, Plus, Sum;
  }

  /** Eight rounds at once. */
  function Eight(r: Registers, k: seq<Word>, w: seq<Word>): Registers
    requires |k| == |w| == 8
  {
    Half(Half(r, k, w, 0), k, w, 4)
  }

  function Half(r: Registers, k: seq<Word>, w: seq<Word>, j: nat): Registers
    requires |k| == |w| == 8 && j <= 4
  {
    Round(Round(Round(Round(r, k[j], w[j]), k[j + 1], w[j + 1]), k[j + 2], w[j + 2]), k[j + 3], w[j + 3])
  }

  lemma EightRounds(s: seq<Word>, block: seq<Byte>, i: nat)
    requires |s| == 8 && |block| == BLOCK_LENGTH && i < 8
    ensures |CONSTANTS| == 8 && |CONSTANTS[i]| == 8
    ensures Rounds(s, block, 8 * i + 8) == Eight(Rounds(s, block, 8 * i), CONSTANTS[i], Row(block, i))
  {
    hide Half, RoundConstant, Schedule, Rounds;
    TableSizes();
    var k, w := CONSTANTS[i], Row(block, i);
    forall j | 0 <= j < 8
      ensures RoundConstant(8 * i + j) == k[j]
    {
      ConstantAt(i, j);
    }
    ByHalves(s, block, 8 * i, k, w);
  }

  lemma ConstantAt(i: nat, j: nat)
    requires i < 8 && j < 8
    ensures |CONSTANTS| == 8 && |CONSTANTS[i]| == 8 && RoundConstant(8 * i + j) == CONSTANTS[i][j]
  {
    TableSizes();
    assert (8 * i + j) / 8 == i && (8 * i + j) % 8 == j;
  }

  /** k and w are the constants and the schedule words of eight rounds. */
  ghost predicate InRounds(block: seq<Byte>, t: nat, k: seq<Word>, w: seq<Word>) {
    && |block| == BLOCK_LENGTH && |k| == |w| == 8 && t + 8 <= 64
    && forall j :: 0 <= j < 8 ==> RoundConstant(t + j) == k[j] && Schedule(block, t + j) == w[j]
  }

  lemma ByHalves(s: seq<Word>, block: seq<Byte>, t: nat, k: seq<Word>, w: seq<Word>)
    requires |s| == 8 && InRounds(block, t, k, w)
    ensures Rounds(s, block, t + 8) == Eight(Rounds(s, block, t), k, w)
  {
    hide Half, Rounds, RoundConstant, Schedule, InRounds;
    HalfRounds(s, block, t, k, w, 0);
    HalfRounds(s, block, t, k, w, 4);
  }

  lemma HalfRounds(s: seq<Word>, block: seq<Byte>, t: nat, k: seq<Word>, w: seq<Word>, j: nat)
    requires |s| == 8 && InRounds(block, t, k, w) && j <= 4
    ensures Rounds(s, block, t + j + 4) == Half(Rounds(s, block, t + j), k, w, j)
  {
    hide Round, Rounds, RoundConstant, Schedule, InRounds;
    OneRound(s, block, t, k, w, j);
    OneRound(s, block, t, k, w, j + 1);
    OneRound(s, block, t, k, w, j + 2);
    OneRound(s, block, t, k, w, j + 3);
  }

  lemma OneRound(s: seq<Word>, block: seq<Byte>, t: nat, k: seq<Word>, w: seq<Word>, j: nat)
    requires |s| == 8 && InRounds(block, t, k, w) && j < 8
    ensures Rounds(s, block, t + j + 1) == Round(Rounds(s, block, t + j), k[j], w[j])
  {
    hide Round, RoundConstant, Schedule;
    assert RoundConstant(t + j) == k[j];
  }

  // ---- the schedule ----

  lemma Row0()
    ensures Row(AbcBlock(), 0) == [0x61626380, 0x00000000, 0x00000000, 0x00000000, 0x00000000, 0x00000000, 0x00000000, 0x00000000]
    ensures Row(AbcBlock(), 1) == [0x00000000, 0x00000000, 0x00000000, 0x00000000, 0x00000000, 0x00000000, 0x00000000, 0x00000018]
  {
    hide Schedule, AbcBlock;
    forall j | 0 <= j < 16
      ensures Schedule(AbcBlock(), j) == if j == 0 then 0x61626380 else if j == 15 then 0x18 else 0
    {
      AbcWord(j);
    }
  }

  lemma AbcWord(j: nat)
    requires j < 16
    ensures Schedule(AbcBlock(), j) == if j == 0 then 0x61626380 else if j == 15 then 0x18 else 0
  {
    hide Join;
    AbcJoined();
    assert Schedule(AbcBlock(), j) == BeWord(AbcBlock(), j);
  }

  lemma AbcJoined()
    ensures Join(0x61, 0x62, 0x63, 0x80) == 0x61626380 && Join(0, 0, 0, 0) == 0 && Join(0, 0, 0, 24) == 0x18
  {
  }

  lemma Row2()
    ensures Row(AbcBlock(), 2) == [0x61626380, 0x000f0000, 0x7da86405, 0x600003c6, 0x3e9d7b78, 0x0183fc00, 0x12dcbfdb, 0xe2e2c38e]
  {
    hide Row, AbcBlock, Schedule;
    Row0();
    RowFollows(AbcBlock(), 0);
  }

  lemma Row3()
    ensures Row(AbcBlock(), 3) == [0xc8215c1a, 0xb73679a2, 0xe5bc3909, 0x32663c5b, 0x9d209d67, 0xec8726cb, 0x702138a4, 0xd3b7973b]
  {
    hide Row, AbcBlock, Schedule;
    Row0();
    Row2();
    RowFollows(AbcBlock(), 1);
  }

  lemma Row4()
    ensures Row(AbcBlock(), 4) == [0x93f5997f, 0x3b68ba73, 0xaff4ffc1, 0xf10a5c62, 0x0a8b3996, 0x72af830a, 0x9409e33e, 0x24641522]
  {
    hide Row, AbcBlock, Schedule;
    Row2();
    Row3();
    RowFollows(AbcBlock(), 2);
  }

  lemma Row5()
    ensures Row(AbcBlock(), 5) == [0x9f47bf94, 0xf0a64f5a, 0x3e246a79, 0x27333ba3, 0x0c4763f2, 0x840abf27, 0x7a290d5d, 0x065c43da]
  {
    hide Row, AbcBlock, Schedule;
    Row3();
    Row4();
    RowFollows(AbcBlock(), 3);
  }

  lemma Row6()
    ensures Row(AbcBlock(), 6) == [0xfb3e89cb, 0xcc7617db, 0xb9e66c34, 0xa9993667, 0x84badedd, 0xc21462bc, 0x1487472c, 0xb20f7a99]
  {
    hide Row, AbcBlock, Schedule;
    Row4();
    Row5();
    RowFollows(AbcBlock(), 4);
  }

  lemma Row7()
    ensures Row(AbcBlock(), 7) == [0xef57b9cd, 0xebe6b238, 0x9fe3095e, 0x78bc8d4b, 0xa43fcf15, 0x668b2ff8, 0xeeaba2cc, 0x12b1edeb]
  {
    hide Row, AbcBlock, Schedule;
    Row5();
    Row6();
    RowFollows(AbcBlock(), 5);
  }

  // ---- the rounds ----

  lemma Start()
    ensures |INITIAL| == 8 && Rounds(INITIAL, AbcBlock(), 0) == Registers(0x6a09e667, 0xbb67ae85, 0x3c6ef372, 0xa54ff53a, 0x510e527f, 0x9b05688c, 0x1f83d9ab, 0x5be0cd19)
  {
    TableSizes();
  }

  lemma Rounds0()
    ensures |INITIAL| == 8 && Rounds(INITIAL, AbcBlock(), 8) == Registers(0x85a07b5f, 0xe5030380, 0x2b4209f5, 0x04409a6a, 0x0c657a79, 0x9b27a401, 0x714260ad, 0x43ada245)
  {
    hide Rounds, Row, AbcBlock, Schedule;
    TableSizes();
    Start();
    Row0();
    EightRounds(INITIAL, AbcBlock(), 0);
    assert CONSTANTS[0] == [0x428a2f98, 0x71374491, 0xb5c0fbcf, 0xe9b5dba5, 0x3956c25b, 0x59f111f1, 0x923f82a4, 0xab1c5ed5];
  }

  lemma Rounds1()
    ensures |INITIAL| == 8 && Rounds(INITIAL, AbcBlock(), 16) == Registers(0xb0fa238e, 0xc0645fde, 0xd932eb16, 0x87912990, 0x07590dcd, 0x0b92f20c, 0x745a48de, 0x1e578218)
  {
    hide Rounds, Row, AbcBlock, Schedule;
    TableSizes();
    Rounds0();
    Row0();
    EightRounds(INITIAL, AbcBlock(), 1);
    assert CONSTANTS[1] == [0xd807aa98, 0x12835b01, 0x243185be, 0x550c7dc3, 0x72be5d74, 0x80deb1fe, 0x9bdc06a7, 0xc19bf174];
  }

  lemma Rounds2()
    ensures |INITIAL| == 8 && Rounds(INITIAL, AbcBlock(), 24) == Registers(0xc5d53d8d, 0xa7a3623f, 0xc2606d6d, 0x9dc68b63, 0xaa47c347, 0x49f5114a, 0xe1257970, 0x8ada8930)
  {
    hide Rounds, Row, AbcBlock, Schedule;
    TableSizes();
    Rounds1();
    Row2();
    EightRounds(INITIAL, AbcBlock(), 2);
    assert CONSTANTS[2] == [0xe49b69c1, 0xefbe4786, 0x0fc19dc6, 0x240ca1cc, 0x2de92c6f, 0x4a7484aa, 0x5cb0a9dc, 0x76f988da];
  }

  lemma Rounds3()
    ensures |INITIAL| == 8 && Rounds(INITIAL, AbcBlock(), 32) == Registers(0x73b33bf5, 0xea992a22, 0xa0060b30, 0x363482c9, 0xba591112, 0x0109ab3a, 0xade79437, 0x6112a3b7)
  {
    hide Rounds, Row, AbcBlock, Schedule;
    TableSizes();
    Rounds2();
    Row3();
    EightRounds(INITIAL, AbcBlock(), 3);
    assert CONSTANTS[3] == [0x983e5152, 0xa831c66d, 0xb00327c8, 0xbf597fc7, 0xc6e00bf3, 0xd5a79147, 0x06ca6351, 0x14292967];
  }

  lemma Rounds4()
    ensures |INITIAL| == 8 && Rounds(INITIAL, AbcBlock(), 40) == Registers(0x79ea687a, 0x6dc57a8a, 0x34df1604, 0x41a65cb1, 0x1efbc0a0, 0xf0781bc8, 0xa507a53d, 0x0772a26b)
  {
    hide Rounds, Row, AbcBlock, Schedule;
    TableSizes();
    Rounds3();
    Row4();
    EightRounds(INITIAL, AbcBlock(), 4);
    assert CONSTANTS[4] == [0x27b70a85, 0x2e1b2138, 0x4d2c6dfc, 0x53380d13, 0x650a7354, 0x766a0abb, 0x81c2c92e, 0x92722c85];
  }

  lemma Rounds5()
    ensures |INITIAL| == 8 && Rounds(INITIAL, AbcBlock(), 48) == Registers(0x4172328d, 0xa14c14b0, 0x72ab4b91, 0x26628815, 0xfecf0bc6, 0xd57b94a9, 0xb7755da1, 0xa80f11f0)
  {
    hide Rounds, Row, AbcBlock, Schedule;
    TableSizes();
    Rounds4();
    Row5();
    EightRounds(INITIAL, AbcBlock(), 5);
    assert CONSTANTS[5] == [0xa2bfe8a1, 0xa81a664b, 0xc24b8b70, 0xc76c51a3, 0xd192e819, 0xd6990624, 0xf40e3585, 0x106aa070];
  }

  lemma Rounds6()
    ensures |INITIAL| == 8 && Rounds(INITIAL, AbcBlock(), 56) == Registers(0x38cc9913, 0x3ec45cdb, 0xf5702fdb, 0x101fd28f, 0x54cb266b, 0xe50e1b4f, 0x9f4787c3, 0x529e7d00)
  {
    hide Rounds, Row, AbcBlock, Schedule;
    TableSizes();
    Rounds5();
    Row6();
    EightRounds(INITIAL, AbcBlock(), 6);
    assert CONSTANTS[6] == [0x19a4c116, 0x1e376c08, 0x2748774c, 0x34b0bcb5, 0x391c0cb3, 0x4ed8aa4a, 0x5b9cca4f, 0x682e6ff3];
  }

  lemma Rounds7()
    ensures |INITIAL| == 8 && Rounds(INITIAL, AbcBlock(), 64) == Registers(0x506e3058, 0xd39a2165, 0x04d24d6c, 0xb85e2ce9, 0x5ef50f24, 0xfb121210, 0x948d25b6, 0x961f4894)
  {
    hide Rounds, Row, AbcBlock, Schedule;
    TableSizes();
    Rounds6();
    Row7();
    EightRounds(INITIAL, AbcBlock(), 7);
    assert CONSTANTS[7] == [0x748f82ee, 0x78a5636f, 0x84c87814, 0x8cc70208, 0x90befffa, 0xa4506ceb, 0xbef9a3f7, 0xc67178f2];
  }

  // ---- the digest ----

  lemma AbcPadded()
    ensures ABC + Padding(|ABC|) == AbcBlock()
  {
    hide BigEndian;
    BigEndianStep(24, 7);
    BigEndianZero(7);
  }

  lemma AbcHash()
    ensures |INITIAL| == 8 && Compress(INITIAL, AbcBlock()) == [0xba7816bf, 0x8f01cfea, 0x414140de, 0x5dae2223, 0xb00361a3, 0x96177a9c, 0xb410ff61, 0xf20015ad]
  {
    hide Rounds, AbcBlock;
    TableSizes();
    Rounds7();
  }

  lemma AbcBytes()
    ensures WordBytes([0xba7816bf, 0x8f01cfea, 0x414140de, 0x5dae2223, 0xb00361a3, 0x96177a9c, 0xb410ff61, 0xf20015ad]) == [
       0xba, 0x78, 0x16, 0xbf, 0x8f, 0x01, 0xcf, 0xea,
       0x41, 0x41, 0x40, 0xde, 0x5d, 0xae, 0x22, 0x23,
       0xb0, 0x03, 0x61, 0xa3, 0x96, 0x17, 0x7a, 0x9c,
       0xb4, 0x10, 0xff, 0x61, 0xf2, 0x00, 0x15, 0xad]
  {
    hide WordToBytes, WordBytes, Four;
    EightWords([0xba7816bf, 0x8f01cfea, 0x414140de, 0x5dae2223, 0xb00361a3, 0x96177a9c, 0xb410ff61, 0xf20015ad]);
    FirstHalf();
    SecondHalf();
  }

  /** The bytes of four words. */
  function Four(a: Word, b: Word, c: Word, d: Word): seq<Byte> {
    WordToBytes(a) + WordToBytes(b) + WordToBytes(c) + WordToBytes(d)
  }

  lemma EightWords(s: seq<Word>)
    requires |s| == 8
    ensures WordBytes(s) == Four(s[0], s[1], s[2], s[3]) + Four(s[4], s[5], s[6], s[7])
  {
    hide Four, WordBytes;
    FourMore(s, 0);
    FourMore(s, 4);
    assert WordBytes(s[..0]) == [] && s[..8] == s;
  }

  lemma FourMore(s: seq<Word>, k: nat)
    requires k + 4 <= |s|
    ensures WordBytes(s[..k + 4]) == WordBytes(s[..k]) + Four(s[k], s[k + 1], s[k + 2], s[k + 3])
  {
    hide WordToBytes, WordBytes;
    OneMore(s, k);
    OneMore(s, k + 1);
    OneMore(s, k + 2);
    OneMore(s, k + 3);
    Regroup(WordBytes(s[..k]), WordToBytes(s[k]), WordToBytes(s[k + 1]), WordToBytes(s[k + 2]), WordToBytes(s[k + 3]));
  }

  lemma Regroup(p: seq<Byte>, a: seq<Byte>, b: seq<Byte>, c: seq<Byte>, d: seq<Byte>)
    ensures p + a + b + c + d == p + (a + b + c + d)
  {
  }

  lemma OneMore(s: seq<Word>, k: nat)
    requires k < |s|
    ensures WordBytes(s[..k + 1]) == WordBytes(s[..k]) + WordToBytes(s[k])
  {
    hide WordToBytes;
    assert s[..k + 1][..k] == s[..k];
  }

  lemma FirstHalf()
    ensures Four(0xba7816bf, 0x8f01cfea, 0x414140de, 0x5dae2223) == [
       0xba, 0x78, 0x16, 0xbf, 0x8f, 0x01, 0xcf, 0xea, 0x41, 0x41, 0x40, 0xde, 0x5d, 0xae, 0x22, 0x23]
  {
  }

  lemma SecondHalf()
    ensures Four(0xb00361a3, 0x96177a9c, 0xb410ff61, 0xf20015ad) == [
       0xb0, 0x03, 0x61, 0xa3, 0x96, 0x17, 0x7a, 0x9c, 0xb4, 0x10, 0xff, 0x61, 0xf2, 0x00, 0x15, 0xad]
  {
  }

  /** The digest that section B.1 of FIPS 180-2 gives for its one-block message. */
  lemma DigestOfAbc()
    ensures Sha256(ABC) == [
       0xba, 0x78, 0x16, 0xbf, 0x8f, 0x01, 0xcf, 0xea,
       0x41, 0x41, 0x40, 0xde, 0x5d, 0xae, 0x22, 0x23,
       0xb0, 0x03, 0x61, 0xa3, 0x96, 0x17, 0x7a, 0x9c,
       0xb4, 0x10, 0xff, 0x61, 0xf2, 0x00, 0x15, 0xad]
  {
    hide Compress, AbcBlock, Padding, HashBlocks, WordBytes;
    AbcPadded();
    AbcHash();
    HashUnfolds(AbcBlock(), 64);
    HashUnfolds([], 0);
    assert AbcBlock()[..0] == [] && AbcBlock()[0..64] == AbcBlock();
    AbcBytes();
  }
}
