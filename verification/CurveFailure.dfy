/** ecc.c: points of PRIME-256 whose double or sum, as the code computes it, is not on the curve. */
module CurveFailure {
  import opened Arith
  import opened Numerals
  import opened Congruence
  import opened Words
  import opened FieldOps
  import opened ModPrime
  import opened Curve

  /** The coefficient b of PRIME-256. */
  const COEFFICIENT: nat := 0x5AC635D8AA3A93E7B3EBBD55769886BC651D06B0CC53B0F63BCE3C3E27D2604B

  const PX: nat := 0x0000000000000000FFFFFFFF800000005FFFFFFFAFFFFFFFC600000001000001
  const PY: nat := 0xB30E52DAE428146BBDBC85421522E5C01E4301E2113AB563B46981E610BF0677

  // ---- one product at a time ----

  /** The chain of steps of fieldModP, from its nine terms. */
  function Steps(t: int, s1: int, s2: int, s3: int, s4: int, d1: int, d2: int, d3: int, d4: int): Chain
    requires 0 <= t < W8 && 0 <= s1 < W8 && 0 <= s2 < W8 && 0 <= s3 < W8 && 0 <= s4 < W8
    requires 0 <= d1 < W8 && 0 <= d2 < W8 && 0 <= d3 < W8 && 0 <= d4 < W8
  {
    var sum := AddTerm(AddTerm(AddTerm(AddTerm(AddTerm(AddTerm(Chain(t, 0, 0), s1), s1), s2), s2), s3), s4);
    SubTerm(SubTerm(SubTerm(SubTerm(sum, d1), d2), d3), d4)
  }

  /** The product of x and y in words, and what becomes of it. */
  lemma MulOf(x: nat, y: nat, B: Double)
    requires x * y == Row(B[0], B[1], B[2], B[3], B[4], B[5], B[6], B[7])
      + W8 * Row(B[8], B[9], B[10], B[11], B[12], B[13], B[14], B[15])
    ensures ProductWords(x, y) == B
    ensures V(B[..8]) < W8 && V(S1(B)) < W8 && V(S2(B)) < W8 && V(S3(B)) < W8 && V(S4(B)) < W8
    ensures V(D1(B)) < W8 && V(D2(B)) < W8 && V(D3(B)) < W8 && V(D4(B)) < W8
    ensures var c := Steps(V(B[..8]), V(S1(B)), V(S2(B)), V(S3(B)), V(S4(B)), V(D1(B)), V(D2(B)), V(D3(B)), V(D4(B)));
      Mul(x, y) == Final(c.value) && (Exact(x, y) <==> c.carries == c.borrows)
  {
    hide Val, Pow, S1, S2, S3, S4, D1, D2, D3, D4, Row, AddTerm, SubTerm, Final;
    WordPowers();
    ValSplit(WORD_BASE, B, 8);
    RowValue(B[..8]);
    RowValue(B[8..]);
    WordsOfValue(B);
    TermBounds(B);
  }

  lemma TermValues(B: Double)
    ensures V(B[..8]) == Row(B[0], B[1], B[2], B[3], B[4], B[5], B[6], B[7])
    ensures V(S1(B)) == Row(0, 0, 0, B[11], B[12], B[13], B[14], B[15])
    ensures V(S2(B)) == Row(0, 0, 0, B[12], B[13], B[14], B[15], 0)
    ensures V(S3(B)) == Row(B[8], B[9], B[10], 0, 0, 0, B[14], B[15])
    ensures V(S4(B)) == Row(B[9], B[10], B[11], B[13], B[14], B[15], B[13], B[8])
    ensures V(D1(B)) == Row(B[11], B[12], B[13], 0, 0, 0, B[8], B[10])
    ensures V(D2(B)) == Row(B[12], B[13], B[14], B[15], 0, 0, B[9], B[11])
    ensures V(D3(B)) == Row(B[13], B[14], B[15], B[8], B[9], B[10], 0, B[12])
    ensures V(D4(B)) == Row(B[14], B[15], 0, B[9], B[10], B[11], 0, B[13])
  {
    hide Val, Row;
    RowValue(B[..8]);
    RowValue(S1(B));
    RowValue(S2(B));
    RowValue(S3(B));
    RowValue(S4(B));
    RowValue(D1(B));
    RowValue(D2(B));
    RowValue(D3(B));
    RowValue(D4(B));
  }

  // ---- the five products of the doubling ----

  const INVERSE: nat := 0x4A00571CAF3E9A6234E4ED3148CE50699C298DF5285FA107966BBF406BBEC4FC
  // the code's square of PX; the true one differs modulo the prime
  const SQUARE: nat := 0x0000000000000001EC7FFFFF25000002CC83FFFF5F8BFFFF8C00FFFF02000001
  const NUMERATOR: nat := 0x0000000000000005C57FFFFD6F000008658BFFFE1EA3FFFEA402FFFD06000000
  const SLOPE: nat := 0x53C395C3FE28FB86CF56E0A672A0487378048A8E8B5F826415BA68F89408CB63
  const SLOPE_SQUARE: nat := 0xA7AB9FE8FE8309D387B3FF956C49C408035B4EA5F8FCF67CC4C3A29F690E531B
  const DX: nat := 0xA7AB9FE8FE8309D187B3FF966C49C407435B4EA698FCF67D38C3A29F670E5319
  const LAST: nat := 0x1F63E3A503AD0B2BBDBF940C8FB8EBE649C125A71A26996AA5F2E1D616DF4D3E
  const DY: nat := 0x6C5590C91F84F6C100030ECA7A9606262B7E23C608EBE406F1895FF0062046C6

  lemma FirstProductSteps()
    ensures PX * PX == Row(0x02000001, 0x8C010000, 0x5F8BFFFF, 0xCC83FFFF, 0x25000000, 0xEC7FFFFF, 0x00000001, 0)
      + W8 * Row(0, 0xFFFFFFFF, 0, 0xFFFFFFFF, 0, 0, 0, 0)
    ensures Steps(Row(0x02000001, 0x8C010000, 0x5F8BFFFF, 0xCC83FFFF, 0x25000000, 0xEC7FFFFF, 0x00000001, 0),
                  Row(0, 0, 0, 0xFFFFFFFF, 0, 0, 0, 0),
                  Row(0, 0, 0, 0, 0, 0, 0, 0),
                  Row(0, 0xFFFFFFFF, 0, 0, 0, 0, 0, 0),
                  Row(0xFFFFFFFF, 0, 0xFFFFFFFF, 0, 0, 0, 0, 0),
                  Row(0xFFFFFFFF, 0, 0, 0, 0, 0, 0, 0),
                  Row(0, 0, 0, 0, 0, 0, 0xFFFFFFFF, 0xFFFFFFFF),
                  Row(0, 0, 0, 0, 0xFFFFFFFF, 0, 0, 0),
                  Row(0, 0, 0, 0xFFFFFFFF, 0, 0xFFFFFFFF, 0, 0))
      == Chain(0xFFFFFFFF00000002EC7FFFFF25000002CC8400005F8BFFFF8C00FFFF02000000, 0, 1)
  {
  }

  /** A borrow is lost in the first reduction, and nothing makes up for it. */
  lemma FirstProduct()
    ensures Mul(PX, PX) == SQUARE && !Exact(PX, PX)
  {
    hide Val, Pow, S1, S2, S3, S4, D1, D2, D3, D4, Mul, Exact, ProductWords, Steps, Row;
    FirstProductSteps();
    var B: Double := [0x02000001, 0x8C010000, 0x5F8BFFFF, 0xCC83FFFF, 0x25000000, 0xEC7FFFFF, 0x00000001, 0,
                      0, 0xFFFFFFFF, 0, 0xFFFFFFFF, 0, 0, 0, 0];
    TermValues(B);
    MulOf(PX, PX, B);
  }

  lemma SecondProductSteps()
    ensures (SQUARE - 1) * 3 == Row(0x06000000, 0xA402FFFD, 0x1EA3FFFE, 0x658BFFFE, 0x6F000008, 0xC57FFFFD, 0x00000005, 0)
      + W8 * Row(0, 0, 0, 0, 0, 0, 0, 0)
    ensures Steps(Row(0x06000000, 0xA402FFFD, 0x1EA3FFFE, 0x658BFFFE, 0x6F000008, 0xC57FFFFD, 0x00000005, 0),
                  Row(0, 0, 0, 0, 0, 0, 0, 0),
                  Row(0, 0, 0, 0, 0, 0, 0, 0),
                  Row(0, 0, 0, 0, 0, 0, 0, 0),
                  Row(0, 0, 0, 0, 0, 0, 0, 0),
                  Row(0, 0, 0, 0, 0, 0, 0, 0),
                  Row(0, 0, 0, 0, 0, 0, 0, 0),
                  Row(0, 0, 0, 0, 0, 0, 0, 0),
                  Row(0, 0, 0, 0, 0, 0, 0, 0))
      == Chain(0x0000000000000005C57FFFFD6F000008658BFFFE1EA3FFFEA402FFFD06000000, 0, 0)
  {
    assert Row(0, 0, 0, 0, 0, 0, 0, 0) == 0;
  }

  /** The other reductions are exact. */
  lemma SecondProduct()
    ensures Mul(SQUARE - 1, 3) == NUMERATOR
  {
    hide Val, Pow, S1, S2, S3, S4, D1, D2, D3, D4, Mul, Exact, ProductWords, Steps, Row;
    SecondProductSteps();
    var B: Double := [0x06000000, 0xA402FFFD, 0x1EA3FFFE, 0x658BFFFE, 0x6F000008, 0xC57FFFFD, 0x00000005, 0,
                      0, 0, 0, 0, 0, 0, 0, 0];
    TermValues(B);
    MulOf(SQUARE - 1, 3, B);
  }

  lemma ThirdProductSteps()
    ensures NUMERATOR * INVERSE == Row(0xE8000000, 0xFE3E29A9, 0xCEFD382F, 0x38A77D4A, 0x8F82A087, 0xE0A03415, 0x95979F8E, 0xB9D0F0EA)
      + W8 * Row(0xFC07CD0D, 0x467FCDC2, 0xCB9658C8, 0x9BE4E830, 0x4F80F077, 0xAB18F6C3, 0x00000001, 0)
    ensures Steps(Row(0xE8000000, 0xFE3E29A9, 0xCEFD382F, 0x38A77D4A, 0x8F82A087, 0xE0A03415, 0x95979F8E, 0xB9D0F0EA),
                  Row(0, 0, 0, 0x9BE4E830, 0x4F80F077, 0xAB18F6C3, 0x00000001, 0),
                  Row(0, 0, 0, 0x4F80F077, 0xAB18F6C3, 0x00000001, 0, 0),
                  Row(0xFC07CD0D, 0x467FCDC2, 0xCB9658C8, 0, 0, 0, 0x00000001, 0),
                  Row(0x467FCDC2, 0xCB9658C8, 0x9BE4E830, 0xAB18F6C3, 0x00000001, 0, 0xAB18F6C3, 0xFC07CD0D),
                  Row(0x9BE4E830, 0x4F80F077, 0xAB18F6C3, 0, 0, 0, 0xFC07CD0D, 0xCB9658C8),
                  Row(0x4F80F077, 0xAB18F6C3, 0x00000001, 0, 0, 0, 0x467FCDC2, 0x9BE4E830),
                  Row(0xAB18F6C3, 0x00000001, 0, 0xFC07CD0D, 0x467FCDC2, 0xCB9658C8, 0, 0x4F80F077),
                  Row(0x00000001, 0, 0, 0x467FCDC2, 0xCB9658C8, 0x9BE4E830, 0, 0xAB18F6C3))
      == Chain(0x53C395C3FE28FB86CF56E0A672A0487378048A8E8B5F826415BA68F89408CB63, 0, 0)
  {
  }

  lemma ThirdProduct()
    ensures Mul(NUMERATOR, INVERSE) == SLOPE
  {
    hide Val, Pow, S1, S2, S3, S4, D1, D2, D3, D4, Mul, Exact, ProductWords, Steps, Row;
    ThirdProductSteps();
    var B: Double := [0xE8000000, 0xFE3E29A9, 0xCEFD382F, 0x38A77D4A, 0x8F82A087, 0xE0A03415, 0x95979F8E, 0xB9D0F0EA,
                      0xFC07CD0D, 0x467FCDC2, 0xCB9658C8, 0x9BE4E830, 0x4F80F077, 0xAB18F6C3, 0x00000001, 0];
    TermValues(B);
    MulOf(NUMERATOR, INVERSE, B);
  }

  lemma FourthProductSteps()
    ensures SLOPE * SLOPE == Row(0xCFC62849, 0x15C0AB47, 0x8774E924, 0x07765EBA, 0x78DE18CD, 0xE4D8E10C, 0x7A8E6566, 0x446CA676)
      + W8 * Row(0x70306CB5, 0x8511EEB8, 0x9A31FDB8, 0x0721A40C, 0x407560AD, 0x7D61AA70, 0x97018171, 0x1B68688A)
    ensures Steps(Row(0xCFC62849, 0x15C0AB47, 0x8774E924, 0x07765EBA, 0x78DE18CD, 0xE4D8E10C, 0x7A8E6566, 0x446CA676),
                  Row(0, 0, 0, 0x0721A40C, 0x407560AD, 0x7D61AA70, 0x97018171, 0x1B68688A),
                  Row(0, 0, 0, 0x407560AD, 0x7D61AA70, 0x97018171, 0x1B68688A, 0),
                  Row(0x70306CB5, 0x8511EEB8, 0x9A31FDB8, 0, 0, 0, 0x97018171, 0x1B68688A),
                  Row(0x8511EEB8, 0x9A31FDB8, 0x0721A40C, 0x7D61AA70, 0x97018171, 0x1B68688A, 0x7D61AA70, 0x70306CB5),
                  Row(0x0721A40C, 0x407560AD, 0x7D61AA70, 0, 0, 0, 0x70306CB5, 0x9A31FDB8),
                  Row(0x407560AD, 0x7D61AA70, 0x97018171, 0x1B68688A, 0, 0, 0x8511EEB8, 0x0721A40C),
                  Row(0x7D61AA70, 0x97018171, 0x1B68688A, 0x70306CB5, 0x8511EEB8, 0x9A31FDB8, 0, 0x407560AD),
                  Row(0x97018171, 0x1B68688A, 0, 0x8511EEB8, 0x9A31FDB8, 0x0721A40C, 0, 0x7D61AA70))
      == Chain(0xA7AB9FE8FE8309D387B3FF956C49C408035B4EA5F8FCF67CC4C3A29F690E531B, 0, 0)
  {
  }

  lemma FourthProduct()
    ensures Mul(SLOPE, SLOPE) == SLOPE_SQUARE
  {
    hide Val, Pow, S1, S2, S3, S4, D1, D2, D3, D4, Mul, Exact, ProductWords, Steps, Row;
    FourthProductSteps();
    var B: Double := [0xCFC62849, 0x15C0AB47, 0x8774E924, 0x07765EBA, 0x78DE18CD, 0xE4D8E10C, 0x7A8E6566, 0x446CA676,
                      0x70306CB5, 0x8511EEB8, 0x9A31FDB8, 0x0721A40C, 0x407560AD, 0x7D61AA70, 0x97018171, 0x1B68688A];
    TermValues(B);
    MulOf(SLOPE, SLOPE, B);
  }

  lemma FifthProductSteps()
    ensures SLOPE * (PX - DX + PRIME) == Row(0x1FC90A55, 0x239B95B9, 0xA49ABC7C, 0x05FDA0A7, 0x8C859D52, 0xF1EEA2C2, 0x0993BDF3, 0x1348B071)
      + W8 * Row(0x2BA7A1F3, 0x73AE8F20, 0xDD2386D0, 0xF6ABFB6F, 0x70372481, 0x323A4D48, 0x0F2280F0, 0x1CE6D719)
    ensures Steps(Row(0x1FC90A55, 0x239B95B9, 0xA49ABC7C, 0x05FDA0A7, 0x8C859D52, 0xF1EEA2C2, 0x0993BDF3, 0x1348B071),
                  Row(0, 0, 0, 0xF6ABFB6F, 0x70372481, 0x323A4D48, 0x0F2280F0, 0x1CE6D719),
                  Row(0, 0, 0, 0x70372481, 0x323A4D48, 0x0F2280F0, 0x1CE6D719, 0),
                  Row(0x2BA7A1F3, 0x73AE8F20, 0xDD2386D0, 0, 0, 0, 0x0F2280F0, 0x1CE6D719),
                  Row(0x73AE8F20, 0xDD2386D0, 0xF6ABFB6F, 0x323A4D48, 0x0F2280F0, 0x1CE6D719, 0x323A4D48, 0x2BA7A1F3),
                  Row(0xF6ABFB6F, 0x70372481, 0x323A4D48, 0, 0, 0, 0x2BA7A1F3, 0xDD2386D0),
                  Row(0x70372481, 0x323A4D48, 0x0F2280F0, 0x1CE6D719, 0, 0, 0x73AE8F20, 0xF6ABFB6F),
                  Row(0x323A4D48, 0x0F2280F0, 0x1CE6D719, 0x2BA7A1F3, 0x73AE8F20, 0xDD2386D0, 0, 0x70372481),
                  Row(0x0F2280F0, 0x1CE6D719, 0, 0x73AE8F20, 0xDD2386D0, 0xF6ABFB6F, 0, 0x323A4D48))
      == Chain(0x1F63E3A503AD0B2BBDBF940C8FB8EBE649C125A71A26996AA5F2E1D616DF4D3E, 0, 0)
  {
  }

  lemma FifthProduct()
    ensures Mul(SLOPE, PX - DX + PRIME) == LAST
  {
    hide Val, Pow, S1, S2, S3, S4, D1, D2, D3, D4, Mul, Exact, ProductWords, Steps, Row;
    FifthProductSteps();
    var B: Double := [0x1FC90A55, 0x239B95B9, 0xA49ABC7C, 0x05FDA0A7, 0x8C859D52, 0xF1EEA2C2, 0x0993BDF3, 0x1348B071,
                      0x2BA7A1F3, 0x73AE8F20, 0xDD2386D0, 0xF6ABFB6F, 0x70372481, 0x323A4D48, 0x0F2280F0, 0x1CE6D719];
    TermValues(B);
    MulOf(SLOPE, PX - DX + PRIME, B);
  }

  /** There is one reduced inverse. */
  lemma OneInverse(d: nat, inv: nat, known: nat, k: int)
    requires inv < PRIME && known < PRIME && Cong(d * inv, 1, PRIME) && known * d == 1 + k * PRIME
    ensures inv == known
  {
    hide Cong;
    CongBy(known * d, 1, k, PRIME);
    CongScale(d * inv, 1, known, PRIME);
    CongScale(known * d, 1, inv, PRIME);
    assert known * (d * inv) == inv * (known * d);
    CongSwap(known * (d * inv), known, PRIME);
    CongTrans(known, inv * (known * d), inv, PRIME);
    CongSmall(known, inv, PRIME);
  }

  /** The point is reduced and on the curve, twice its y has the inverse INVERSE, and what
      ec_double computes from it is not on the curve. */
  lemma DoubleLeavesCurve(inv: nat)
    requires inv < PRIME && Cong(Twice(PY) * inv, 1, PRIME)
    ensures PX < PRIME && PY < PRIME && OnCurve(COEFFICIENT, PX, PY)
    ensures var l := TangentSlope(PX, inv); var x3 := ThirdX(l, PX, PX);
      x3 == DX && ThirdY(l, PX, PY, x3) == DY && !OnCurve(COEFFICIENT, DX, DY)
  {
    hide Mul, Exact, Cong, Cubic;
    assert Twice(PY) == 0x661CA5B6C85028D67B790A842A45CB803C8603C322756AC768D303CC217E0CEF;
    OneInverse(Twice(PY), inv, INVERSE, 0x1D846AA620C56251A68B25B7ACD347C8BBA2FAD66A0C736E40D0E1B507A248BD);
    FirstProduct();
    SecondProduct();
    ThirdProduct();
    FourthProduct();
    FifthProduct();
    PointOnCurve();
    ResultOffCurve();
  }

  lemma PointOnCurve()
    ensures OnCurve(COEFFICIENT, PX, PY)
  {
    CongBy(PY * PY, Cubic(COEFFICIENT, PX), -0xFFFFFFFF7FFFFFFFE2C2F752ECF101100C606F1075F0EB8CCDC6B5A45C079D8106A8BEEF5DE96B08, PRIME);
  }

  lemma ResultOffCurve()
    ensures !OnCurve(COEFFICIENT, DX, DY)
  {
    hide Cong;
    var q, r := -0x47ED3391510F2C252C0FE7F9668084C20358A29487FE59C1E0E3045E6007C262187C1CBF9381CA464694D0EACF265E80D5968A6A80FB8C17313D96347A5AC72F, 0x56317E3BED473565B74448BAA039E7CBF381ADEEDB60D379C4BC835088E18CEC;
    assert DY * DY - Cubic(COEFFICIENT, DX) == q * PRIME + r && 0 < r < PRIME;
    if OnCurve(COEFFICIENT, DX, DY) {
      var k := CongQuotient(DY * DY, Cubic(COEFFICIENT, DX), PRIME);
      NoMultiple(k - q, r);
    }
  }

  lemma NoMultiple(k: int, r: nat)
    requires 0 < r < PRIME
    ensures k * PRIME != r
  {
  }

  // ---- an addition that leaves the curve ----

  /** Two points of the curve whose chord has the slope PX, the x that is not squared right. */
  const AX: nat := 5
  const AY: nat := 0x459243B9AA581806FE913BCE99817ADE11CA503C64D9A3C533415C083248FBCC
  const QX: nat := 0xA217A36A1CC222ED6F687F144C3EEE13F0CBF4D2CC0C0AED5A5A38B9ED5D213B
  const QY: nat := 0x9896C6DE14870C0FA2DA28F7EC6F5E5AEF98DC3546DDAF715124BD520450A2C9

  const RISE: nat := 0xACFB7CDA95D10BF85BB712D6AD121C83223174081DFBF453E21C9EB62DF85902
  const RUN_INVERSE: nat := 0x080E7DB6ECDB77857B40F49494D64A72F92778778AC33B89200CF6BF29DF71CC
  const SX: nat := 0x5DE85C94E33DDD157D1780EAD8C111EEDBB80B2D937FF51231A6C74514A2DEC0
  const PRODUCT: nat := 0xF63F864D80DEA81B94DE224EB6294AF8ED07C5EBB0241653634FC2959C994E0A
  const SY: nat := 0x5DA8BF6F6C579C0BF203F956C9B9EC9DFD6EE9B6694666E2122B05439848AB41

  lemma SlopeProductSteps()
    ensures RISE * RUN_INVERSE == Row(0x1BEECF98, 0x9CD6098C, 0x81000AEF, 0xDC5FB786, 0x6556465C, 0xB591028D, 0x38E0A755, 0x827ACF88)
      + W8 * Row(0x64562187, 0x77BD7C3C, 0x0F93D2DF, 0x9E4CBB4D, 0xDF46BF8B, 0x69FE9725, 0x0F705B5C, 0x0571A69A)
    ensures Steps(Row(0x1BEECF98, 0x9CD6098C, 0x81000AEF, 0xDC5FB786, 0x6556465C, 0xB591028D, 0x38E0A755, 0x827ACF88),
                  Row(0, 0, 0, 0x9E4CBB4D, 0xDF46BF8B, 0x69FE9725, 0x0F705B5C, 0x0571A69A),
                  Row(0, 0, 0, 0xDF46BF8B, 0x69FE9725, 0x0F705B5C, 0x0571A69A, 0),
                  Row(0x64562187, 0x77BD7C3C, 0x0F93D2DF, 0, 0, 0, 0x0F705B5C, 0x0571A69A),
                  Row(0x77BD7C3C, 0x0F93D2DF, 0x9E4CBB4D, 0x69FE9725, 0x0F705B5C, 0x0571A69A, 0x69FE9725, 0x64562187),
                  Row(0x9E4CBB4D, 0xDF46BF8B, 0x69FE9725, 0, 0, 0, 0x64562187, 0x0F93D2DF),
                  Row(0xDF46BF8B, 0x69FE9725, 0x0F705B5C, 0x0571A69A, 0, 0, 0x77BD7C3C, 0x9E4CBB4D),
                  Row(0x69FE9725, 0x0F705B5C, 0x0571A69A, 0x64562187, 0x77BD7C3C, 0x0F93D2DF, 0, 0xDF46BF8B),
                  Row(0x0F705B5C, 0x0571A69A, 0, 0x77BD7C3C, 0x0F93D2DF, 0x9E4CBB4D, 0, 0x69FE9725))
      == Chain(0x0000000000000000FFFFFFFF800000005FFFFFFFAFFFFFFFC600000001000001, 0, 0)
  {
  }

  /** The slope is right. */
  lemma SlopeProduct()
    ensures Mul(RISE, RUN_INVERSE) == PX
  {
    hide Val, Pow, S1, S2, S3, S4, D1, D2, D3, D4, Mul, Exact, ProductWords, Steps, Row;
    SlopeProductSteps();
    var B: Double := [0x1BEECF98, 0x9CD6098C, 0x81000AEF, 0xDC5FB786, 0x6556465C, 0xB591028D, 0x38E0A755, 0x827ACF88,
                      0x64562187, 0x77BD7C3C, 0x0F93D2DF, 0x9E4CBB4D, 0xDF46BF8B, 0x69FE9725, 0x0F705B5C, 0x0571A69A];
    TermValues(B);
    MulOf(RISE, RUN_INVERSE, B);
  }

  lemma LastProductSteps()
    ensures PX * (QX - SX) == Row(0x53BA427B, 0xBF8C2BB7, 0x2A9A963C, 0xAF599940, 0xFE50F894, 0xD6385B8F, 0x504AEBE4, 0xACBFFADF)
      + W8 * Row(0x6ED43B9D, 0xA4C74F02, 0x5A98311E, 0x6F2095CD, 0x176CA26D, 0x442F46D5, 0, 0)
    ensures Steps(Row(0x53BA427B, 0xBF8C2BB7, 0x2A9A963C, 0xAF599940, 0xFE50F894, 0xD6385B8F, 0x504AEBE4, 0xACBFFADF),
                  Row(0, 0, 0, 0x6F2095CD, 0x176CA26D, 0x442F46D5, 0, 0),
                  Row(0, 0, 0, 0x176CA26D, 0x442F46D5, 0, 0, 0),
                  Row(0x6ED43B9D, 0xA4C74F02, 0x5A98311E, 0, 0, 0, 0, 0),
                  Row(0xA4C74F02, 0x5A98311E, 0x6F2095CD, 0x442F46D5, 0, 0, 0x442F46D5, 0x6ED43B9D),
                  Row(0x6F2095CD, 0x176CA26D, 0x442F46D5, 0, 0, 0, 0x6ED43B9D, 0x5A98311E),
                  Row(0x176CA26D, 0x442F46D5, 0, 0, 0, 0, 0xA4C74F02, 0x6F2095CD),
                  Row(0x442F46D5, 0, 0, 0x6ED43B9D, 0xA4C74F02, 0x5A98311E, 0, 0x176CA26D),
                  Row(0, 0, 0, 0xA4C74F02, 0x5A98311E, 0x6F2095CD, 0, 0x442F46D5))
      == Chain(0xF63F864D80DEA81B94DE224EB6294AF8ED07C5EBB0241653634FC2959C994E0A, 0, 0)
  {
  }

  /** So is the last reduction; the square of the slope is not. */
  lemma LastProduct()
    ensures Mul(PX, QX - SX) == PRODUCT
  {
    hide Val, Pow, S1, S2, S3, S4, D1, D2, D3, D4, Mul, Exact, ProductWords, Steps, Row;
    LastProductSteps();
    var B: Double := [0x53BA427B, 0xBF8C2BB7, 0x2A9A963C, 0xAF599940, 0xFE50F894, 0xD6385B8F, 0x504AEBE4, 0xACBFFADF,
                      0x6ED43B9D, 0xA4C74F02, 0x5A98311E, 0x6F2095CD, 0x176CA26D, 0x442F46D5, 0, 0];
    TermValues(B);
    MulOf(PX, QX - SX, B);
  }

  lemma AddsOnCurve()
    ensures OnCurve(COEFFICIENT, AX, AY) && OnCurve(COEFFICIENT, QX, QY)
  {
    hide Cong;
    CongBy(AY * AY, Cubic(COEFFICIENT, AX), 0x12E82C137A6CAB5455F8A8BC3652AD7B07C4C0C61639DF3372CB4853DD68B629, PRIME);
    CongBy(QY * QY, Cubic(COEFFICIENT, QX), -0x40FBF20ADDCFEFFBAA25724BC88483B4D902BBF88571887C5AC9F5DE2B5C0781EC78DA3F01EC88BC67B8C701A51055F3DAAC21A4D47A8020EFAEE1BD1B72B7F4, PRIME);
  }

  lemma SumOffCurve()
    ensures !OnCurve(COEFFICIENT, SX, SY)
  {
    hide Cong;
    var q, r := -0xCA2EAB9E7861491BADF0BF98DCD6884D68764AFED1DBE936B3BE87D75597556B95698D29CD5B8E7B215A3FE932FB80F7F4748393C4549F9B53BAC331438A6A6, 0x4AD8E7B121EC1209DA0213E6D2EB38DFC06FADB24C967CD763B9C02580F17BD0;
    assert SY * SY - Cubic(COEFFICIENT, SX) == q * PRIME + r && 0 < r < PRIME;
    if OnCurve(COEFFICIENT, SX, SY) {
      var k := CongQuotient(SY * SY, Cubic(COEFFICIENT, SX), PRIME);
      NoMultiple(k - q, r);
    }
  }

  /** Both points are reduced and on the curve, their x differ by a unit, and what ec_add
      computes from them is not on the curve. */
  lemma AddLeavesCurve(inv: nat)
    requires inv < PRIME && Cong(Minus(AX, QX) * inv, 1, PRIME)
    ensures AX < PRIME && AY < PRIME && QX < PRIME && QY < PRIME && OnCurve(COEFFICIENT, AX, AY)
      && OnCurve(COEFFICIENT, QX, QY)
    ensures var l := ChordSlope(AX, AY, QX, QY, inv); var x3 := ThirdX(l, AX, QX);
      x3 == SX && ThirdY(l, QX, QY, x3) == SY && !OnCurve(COEFFICIENT, SX, SY)
  {
    hide Mul, Exact, Cong, Cubic, OnCurve;
    OneInverse(Minus(AX, QX), inv, RUN_INVERSE, 0x2F493B7497C2BC92BDF2AE5B411D2D3E4E34C2AE53ED67608E39669FFC8BED5);
    SlopeProduct();
    FirstProduct();
    LastProduct();
    AddsOnCurve();
    SumOffCurve();
  }
}
