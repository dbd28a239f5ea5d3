/** ecc.c: the fast reduction modulo the prime of the field. */
module ModPrime {
  import opened Numerals
  import opened Congruence
  import opened Words
  import opened FieldOps

  const PRIME: nat := 0xFFFFFFFF00000001000000000000000000000000FFFFFFFFFFFFFFFFFFFFFFFF
  const REDUCER: nat := W8 - PRIME

  const PRIME_M: seq<Word> := [0xFFFFFFFF, 0xFFFFFFFF, 0xFFFFFFFF, 0x00000000, 0x00000000, 0x00000000, 0x00000001, 0xFFFFFFFF]
  const PRIME_R: seq<Word> := [0x00000001, 0x00000000, 0x00000000, 0xFFFFFFFF, 0xFFFFFFFF, 0xFFFFFFFF, 0xFFFFFFFE, 0x00000000]

  lemma Constants()
    ensures V(PRIME_M) == PRIME && V(PRIME_R) == REDUCER
  {
    hide Val;
    Expand8(PRIME_M);
    Expand8(PRIME_R);
  }

  type Double = s: seq<Word> | |s| == 16 witness seq(16, _ => 0)

  // ---- the terms, formed from the high words ----

  function S1(B: Double): (s: seq<Word>) ensures |s| == 8 { [0, 0, 0] + B[11..16] }
  function S2(B: Double): (s: seq<Word>) ensures |s| == 8 { [0, 0, 0] + B[12..16] + [0] }
  function S3(B: Double): (s: seq<Word>) ensures |s| == 8 { B[8..11] + [0, 0, 0] + B[14..16] }
  function S4(B: Double): (s: seq<Word>) ensures |s| == 8 { B[9..12] + B[13..16] + [B[13], B[8]] }
  function D1(B: Double): (s: seq<Word>) ensures |s| == 8 { B[11..14] + [0, 0, 0] + [B[8], B[10]] }
  function D2(B: Double): (s: seq<Word>) ensures |s| == 8 { B[12..16] + [0, 0] + [B[9], B[11]] }
  function D3(B: Double): (s: seq<Word>) ensures |s| == 8 { B[13..16] + B[8..11] + [0, B[12]] }
  function D4(B: Double): (s: seq<Word>) ensures |s| == 8 { B[14..16] + [0] + B[9..12] + [0, B[13]] }

  /** The terms without any reduction. */
  ghost function ExactSum(B: Double): int {
    V(B[..8]) + 2 * V(S1(B)) + 2 * V(S2(B)) + V(S3(B)) + V(S4(B)) - V(D1(B)) - V(D2(B)) - V(D3(B)) - V(D4(B))
  }

  /** The nine terms add up to the number modulo the prime. */
  lemma NineTerms(B: Double)
    ensures Cong(ExactSum(B), V(B), PRIME)
  {
    hide Val, Pow, Row, Folded;
    WordPowers();
    ValSplit(WORD_BASE, B, 8);
    RowValue(B[8..]);
    RowValue(S1(B));
    RowValue(S2(B));
    RowValue(S3(B));
    RowValue(S4(B));
    RowValue(D1(B));
    RowValue(D2(B));
    RowValue(D3(B));
    RowValue(D4(B));
    HighWords(B[8], B[9], B[10], B[11], B[12], B[13], B[14], B[15]);
    CongBy(V(B), ExactSum(B), Folded(B[8], B[9], B[10], B[11], B[12], B[13], B[14], B[15]), PRIME);
    CongSwap(V(B), ExactSum(B), PRIME);
  }

  /** How often the prime goes into the difference. */
  function Folded(x0: int, x1: int, x2: int, x3: int, x4: int, x5: int, x6: int, x7: int): int {
    x0 + 0x1_00000001 * x1 + 0x1_00000001_00000000 * x2 + 0x1_00000000FFFFFFFF_FFFFFFFF * x3
    + 0x1_00000000FFFFFFFF_FFFFFFFEFFFFFFFF * x4 + 0x1_00000000FFFFFFFF_FFFFFFFEFFFFFFFE_FFFFFFFF * x5
    + 0x1_00000000FFFFFFFF_FFFFFFFEFFFFFFFE_FFFFFFFEFFFFFFFF * x6
    + 0x1_00000000FFFFFFFF_FFFFFFFEFFFFFFFE_FFFFFFFEFFFFFFFF_00000000 * x7
  }

  /** Eight words as a number. */
  function Row(x0: int, x1: int, x2: int, x3: int, x4: int, x5: int, x6: int, x7: int): int {
    x0 + x1 * WORD_BASE + x2 * P2 + x3 * P3 + x4 * P4 + x5 * P5 + x6 * P6 + x7 * P7
  }

  lemma RowValue(s: seq<Word>)
    requires |s| == 8
    ensures V(s) == Row(s[0], s[1], s[2], s[3], s[4], s[5], s[6], s[7])
  {
    Expand8(s);
  }

  /** The high words, folded back: what is left over is a multiple of the prime. */
  lemma HighWords(x0: int, x1: int, x2: int, x3: int, x4: int, x5: int, x6: int, x7: int)
    ensures W8 * Row(x0, x1, x2, x3, x4, x5, x6, x7)
      == 2 * Row(0, 0, 0, x3, x4, x5, x6, x7) + 2 * Row(0, 0, 0, x4, x5, x6, x7, 0)
         + Row(x0, x1, x2, 0, 0, 0, x6, x7) + Row(x1, x2, x3, x5, x6, x7, x5, x0)
         - Row(x3, x4, x5, 0, 0, 0, x0, x2)
         - Row(x4, x5, x6, x7, 0, 0, x1, x3)
         - Row(x5, x6, x7, x0, x1, x2, 0, x4)
         - Row(x6, x7, 0, x1, x2, x3, 0, x5)
         + Folded(x0, x1, x2, x3, x4, x5, x6, x7) * PRIME
  {
  }

  // ---- the chain of field additions and subtractions ----

  /** A running value, and how many carries and borrows have been lost on the way. */
  datatype Chain = Chain(value: nat, carries: nat, borrows: nat)

  /** The reducer that stands in for a carry makes a second one, which is dropped. */
  predicate CarryLost(x: nat, y: nat) {
    x + y >= W8 + PRIME
  }

  /** The modulus added after a borrow does not make it up. */
  predicate BorrowLost(x: nat, y: nat) {
    y > x + PRIME
  }

  function AddTerm(c: Chain, y: nat): Chain {
    Chain(AddThenReduce(c.value, y, REDUCER), c.carries + if CarryLost(c.value, y) then 1 else 0, c.borrows)
  }

  function SubTerm(c: Chain, y: nat): Chain
    requires y < W8
  {
    Chain(SubThenReduce(c.value, y, PRIME), c.carries, c.borrows + if BorrowLost(c.value, y) then 1 else 0)
  }

  /** The value is the exact sum modulo the prime, but for what has been lost. */
  ghost predicate Stands(c: Chain, exact: int) {
    c.value < W8 && Cong(c.value + (c.carries - c.borrows) * REDUCER, exact, PRIME)
  }

  lemma AddKeeps(c: Chain, exact: int, y: nat)
    requires Stands(c, exact) && y < W8
    ensures Stands(AddTerm(c, y), exact + y)
  {
    hide Cong;
    var d := AddTerm(c, y);
    var k: int := if c.value + y < W8 then 0 else if CarryLost(c.value, y) then -2 else -1;
    assert d.value + (d.carries - d.borrows) * REDUCER == c.value + (c.carries - c.borrows) * REDUCER + y + k * PRIME;
    CongRefl(y, PRIME);
    CongAdd(c.value + (c.carries - c.borrows) * REDUCER, exact, y, y, PRIME);
    CongBy(d.value + (d.carries - d.borrows) * REDUCER, c.value + (c.carries - c.borrows) * REDUCER + y, k, PRIME);
    CongTrans(d.value + (d.carries - d.borrows) * REDUCER, c.value + (c.carries - c.borrows) * REDUCER + y,
      exact + y, PRIME);
  }

  lemma SubKeeps(c: Chain, exact: int, y: nat)
    requires Stands(c, exact) && y < W8
    ensures Stands(SubTerm(c, y), exact - y)
  {
    hide Cong;
    var d := SubTerm(c, y);
    var k: int := if c.value >= y then 0 else if BorrowLost(c.value, y) then 2 else 1;
    assert d.value + (d.carries - d.borrows) * REDUCER == c.value + (c.carries - c.borrows) * REDUCER - y + k * PRIME;
    CongRefl(y, PRIME);
    CongAdd(c.value + (c.carries - c.borrows) * REDUCER, exact, y, y, PRIME);
    CongBy(d.value + (d.carries - d.borrows) * REDUCER, c.value + (c.carries - c.borrows) * REDUCER - y, k, PRIME);
    CongTrans(d.value + (d.carries - d.borrows) * REDUCER, c.value + (c.carries - c.borrows) * REDUCER - y,
      exact - y, PRIME);
  }

  ghost function Additions(B: Double): Chain {
    AddTerm(AddTerm(AddTerm(AddTerm(AddTerm(AddTerm(Chain(V(B[..8]), 0, 0),
      V(S1(B))), V(S1(B))), V(S2(B))), V(S2(B))), V(S3(B))), V(S4(B)))
  }

  lemma TermBounds(B: Double)
    ensures V(B[..8]) < W8 && V(S1(B)) < W8 && V(S2(B)) < W8 && V(S3(B)) < W8 && V(S4(B)) < W8
    ensures V(D1(B)) < W8 && V(D2(B)) < W8 && V(D3(B)) < W8 && V(D4(B)) < W8
  {
    hide Val;
    VSmall(B[..8]);
    VSmall(S1(B));
    VSmall(S2(B));
    VSmall(S3(B));
    VSmall(S4(B));
    VSmall(D1(B));
    VSmall(D2(B));
    VSmall(D3(B));
    VSmall(D4(B));
  }

  ghost function Reduction(B: Double): Chain {
    TermBounds(B);
    SubTerm(SubTerm(SubTerm(SubTerm(Additions(B), V(D1(B))), V(D2(B))), V(D3(B))), V(D4(B)))
  }

  ghost predicate Balanced(B: Double) {
    Reduction(B).carries == Reduction(B).borrows
  }

  lemma AdditionsStand(B: Double)
    ensures Stands(Additions(B), V(B[..8]) + 2 * V(S1(B)) + 2 * V(S2(B)) + V(S3(B)) + V(S4(B)))
    ensures Additions(B).carries <= 6 && Additions(B).borrows == 0
  {
    hide Val, S1, S2, S3, S4, Stands, AddTerm;
    TermBounds(B);
    var t, s1, s2, s3, s4 := V(B[..8]), V(S1(B)), V(S2(B)), V(S3(B)), V(S4(B));
    StartStands(t);
    var a1 := AddTerm(Chain(t, 0, 0), s1);
    var a2 := AddTerm(a1, s1);
    var a3 := AddTerm(a2, s2);
    var a4 := AddTerm(a3, s2);
    var a5 := AddTerm(a4, s3);
    AddKeeps(Chain(t, 0, 0), t, s1);
    AddKeeps(a1, t + s1, s1);
    AddKeeps(a2, t + s1 + s1, s2);
    AddKeeps(a3, t + s1 + s1 + s2, s2);
    AddKeeps(a4, t + s1 + s1 + s2 + s2, s3);
    AddKeeps(a5, t + s1 + s1 + s2 + s2 + s3, s4);
    AddCounts(Chain(t, 0, 0), s1);
    AddCounts(a1, s1);
    AddCounts(a2, s2);
    AddCounts(a3, s2);
    AddCounts(a4, s3);
    AddCounts(a5, s4);
  }

  lemma StartStands(t: nat)
    requires t < W8
    ensures Stands(Chain(t, 0, 0), t)
  {
    CongRefl(t, PRIME);
  }

  lemma AddCounts(c: Chain, y: nat)
    ensures AddTerm(c, y).carries <= c.carries + 1 && AddTerm(c, y).borrows == c.borrows
  {
  }

  lemma SubCounts(c: Chain, y: nat)
    requires y < W8
    ensures SubTerm(c, y).borrows <= c.borrows + 1 && SubTerm(c, y).carries == c.carries
  {
  }

  lemma ReductionStands(B: Double)
    ensures Stands(Reduction(B), V(B)) && Reduction(B).carries <= 6 && Reduction(B).borrows <= 4
  {
    hide Val, S1, S2, S3, S4, D1, D2, D3, D4, Additions, SubTerm, Stands, Cong;
    AdditionsStand(B);
    TermBounds(B);
    var e := V(B[..8]) + 2 * V(S1(B)) + 2 * V(S2(B)) + V(S3(B)) + V(S4(B));
    var b0, d1, d2, d3, d4 := Additions(B), V(D1(B)), V(D2(B)), V(D3(B)), V(D4(B));
    var b1 := SubTerm(b0, d1);
    SubKeeps(b0, e, d1);
    var b2 := SubTerm(b1, d2);
    SubKeeps(b1, e - d1, d2);
    var b3 := SubTerm(b2, d3);
    SubKeeps(b2, e - d1 - d2, d3);
    SubKeeps(b3, e - d1 - d2 - d3, d4);
    SubCounts(b0, d1);
    SubCounts(b1, d2);
    SubCounts(b2, d3);
    SubCounts(b3, d4);
    NineTerms(B);
    StandsFor(SubTerm(b3, d4), e - d1 - d2 - d3 - d4, V(B));
  }

  lemma StandsFor(c: Chain, exact: int, v: int)
    requires Stands(c, exact) && Cong(exact, v, PRIME)
    ensures Stands(c, v)
  {
    CongTrans(c.value + (c.carries - c.borrows) * REDUCER, exact, v, PRIME);
  }

  /** The last step of fieldModP. */
  function Final(v: nat): nat {
    if v >= PRIME then v - PRIME else v
  }

  /** fieldModP returns the residue exactly when as many carries as borrows have been lost. */
  lemma ResidueIffBalanced(B: Double)
    ensures Final(Reduction(B).value) < PRIME
    ensures Final(Reduction(B).value) == V(B) % PRIME <==> Balanced(B)
  {
    hide Val, Reduction, Cong;
    ReductionStands(B);
    var c := Reduction(B);
    var k, x := c.carries - c.borrows, Final(c.value);
    CongBy(x + k * REDUCER, c.value + k * REDUCER, if c.value >= PRIME then -1 else 0, PRIME);
    CongTrans(x + k * REDUCER, c.value + k * REDUCER, V(B), PRIME);
    CongResidue(x + k * REDUCER, V(B), PRIME);
    Displaced(x, k);
  }

  /** A displacement of a few times 2^256 mod p is never a multiple of the prime. */
  lemma Displaced(x: nat, k: int)
    requires x < PRIME && -4 <= k <= 6
    ensures (x + k * REDUCER) % PRIME == x <==> k == 0
  {
    if k != 0 {
      var r := x + k * REDUCER;
      assert 0 - PRIME < k * REDUCER < PRIME;
      assert r % PRIME == if r < 0 then r + PRIME else if r < PRIME then r else r - PRIME;
    }
  }

  // ---- fieldModP ----

  /** The additions; the running sum changes between A and a second buffer. */
  method AddTerms(A: array<Word>, tempm2: array<Word>, B: Double)
    requires A.Length == 8 && tempm2.Length == 8 && A != tempm2
    modifies A, tempm2
    ensures V(A[..]) == Additions(B).value
  {
    hide Val, S1, S2, S3, S4, AddThenReduce;
    Constants();
    Copy(B[..8], A);
    assert A[..8] == A[..] && B[..8] == A[..];
    Round(A, S1(B), tempm2);
    Round(tempm2, S1(B), A);
    Round(A, S2(B), tempm2);
    Round(tempm2, S2(B), A);
    Round(A, S3(B), tempm2);
    Round(tempm2, S4(B), A);
  }

  method Round(x: array<Word>, y: seq<Word>, result: array<Word>)
    requires x.Length == result.Length == 8 && x != result && |y| == 8
    modifies result
    ensures V(result[..]) == AddThenReduce(V(x[..]), V(y), REDUCER)
  {
    hide Val, AddThenReduce;
    Constants();
    FieldAdd(x[..], y, PRIME_R, result);
    assert result[..8] == result[..];
  }

  method RoundDown(x: array<Word>, y: seq<Word>, result: array<Word>)
    requires x.Length == result.Length == 8 && x != result && |y| == 8
    modifies result
    ensures V(y) < W8 && V(result[..]) == SubThenReduce(V(x[..]), V(y), PRIME)
  {
    hide Val, SubThenReduce;
    Constants();
    FieldSub(x[..], y, PRIME_M, result);
    assert result[..8] == result[..];
  }

  method FieldModP(A: array<Word>, B: Double)
    requires A.Length == 8
    modifies A
    ensures V(A[..]) == Final(Reduction(B).value)
    ensures V(A[..]) < PRIME && (V(A[..]) == V(B) % PRIME <==> Balanced(B))
  {
    hide Val, D1, D2, D3, D4, Additions, SubThenReduce, Balanced;
    Constants();
    var tempm2 := new Word[8];
    AddTerms(A, tempm2, B);
    TermBounds(B);
    RoundDown(A, D1(B), tempm2);
    RoundDown(tempm2, D2(B), A);
    RoundDown(A, D3(B), tempm2);
    RoundDown(tempm2, D4(B), A);
    ghost var v := V(A[..]);
    assert v == Reduction(B).value;
    var c := IsGreater(A[..], PRIME_M);
    if c >= 0 {
      var tempm := new Word[8];
      RoundDown(A, PRIME_M, tempm);
      Copy(tempm[..], A);
      assert A[..8] == A[..];
      SubtractPrime(v);
    }
    ResidueIffBalanced(B);
  }

  lemma SubtractPrime(v: nat)
    requires v >= PRIME
    ensures SubThenReduce(v, PRIME, PRIME) == Final(v)
  {
  }

  // ---- the reduction can fail ----

  /** The product of 2^128 + 2^64 and (2^32 - 1) * 2^224, two reduced numbers. */
  const FAILING: seq<Word> := [0, 0, 0, 0, 0, 0, 0, 0, 0, 0xFFFF_FFFF, 0, 0xFFFF_FFFF, 0, 0, 0, 0]

  const ONES: nat := 0xFFFF_FFFF

  lemma FailingAdds()
    ensures V(FAILING[..8]) == 0 && V(S1(FAILING)) == ONES * P3 && V(S2(FAILING)) == 0
    ensures V(S3(FAILING)) == ONES * WORD_BASE && V(S4(FAILING)) == ONES + ONES * P2
  {
    hide Val;
    var B := FAILING;
    RowValue(B[..8]);
    RowValue(S1(B));
    RowValue(S2(B));
    RowValue(S3(B));
    RowValue(S4(B));
  }

  lemma FailingSubs()
    ensures V(D1(FAILING)) == ONES && V(D2(FAILING)) == ONES * P6 + ONES * P7
    ensures V(D3(FAILING)) == ONES * P4 && V(D4(FAILING)) == ONES * P3 + ONES * P5
  {
    hide Val;
    var B := FAILING;
    RowValue(D1(B));
    RowValue(D2(B));
    RowValue(D3(B));
    RowValue(D4(B));
  }

  lemma FailingValue()
    ensures V(FAILING) == (P4 + P2) * (ONES * P7)
  {
    hide Val, Pow;
    WordPowers();
    ValSplit(WORD_BASE, FAILING, 8);
    RowValue(FAILING[..8]);
    RowValue(FAILING[8..]);
  }

  lemma FailsForReducedFactors()
    ensures V(FAILING) == (P4 + P2) * (ONES * P7) && P4 + P2 < PRIME && ONES * P7 < PRIME
    ensures Reduction(FAILING).borrows == 1 && Reduction(FAILING).carries == 0 && !Balanced(FAILING)
  {
    hide Val, S1, S2, S3, S4, D1, D2, D3, D4;
    FailingValue();
    FailingAdds();
    FailingSubs();
    TermBounds(FAILING);
    assert Additions(FAILING) == Chain(2 * (ONES * P3) + ONES * WORD_BASE + ONES + ONES * P2, 0, 0);
  }
}
