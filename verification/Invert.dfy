/** mpn_invert_3by2: the reciprocal of two normalised limbs, from half-limb steps. */
module Invert3by2 {
  import opened Arith
  import opened Numerals
  import opened ReciprocalDivision
  import opened Limbs

  /** C's `x << 32` on a limb. */
  function ShiftHalf(x: Limb): Limb {
    (x % HALF_LIMB) * HALF_LIMB
  }

  // ---- high half of the reciprocal ----

  function HighHalfAdjust(qh: nat, r: Limb, p: Limb, u1: Limb): (res: (int, Limb)) {
    if r < p then
      var r1 := AddLimb(r, u1);
      if r1 >= u1 && r1 < p then (qh - 2, SubLimb(AddLimb(r1, u1), p)) else (qh - 1, SubLimb(r1, p))
    else
      (qh, r - p)
  }

  /** floor((b^3 - 1) / u1) - b for b = 2^32, with its remainder. */
  function HighHalf(u1: Limb): (res: (int, Limb))
    requires BASE / 2 <= u1
    ensures 0 <= res.0 < HALF_LIMB && res.1 < u1
    ensures res.0 * u1 + res.1 == HALF_LIMB * (BASE - 1 - u1) + HALF_LIMB - 1
  {
    var ul, uh := u1 % HALF_LIMB, u1 / HALF_LIMB;
    assert u1 == uh * HALF_LIMB + ul && ul < HALF_LIMB && uh > 0;
    HighHalfFrom(u1, uh, ul)
  }

  function FirstQuotient(nu: nat, uh: nat): nat
    requires uh > 0
  {
    nu / uh
  }

  function HighHalfFrom(u1: Limb, uh: nat, ul: nat): (res: (int, Limb))
    requires BASE / 2 <= u1 && u1 == uh * HALF_LIMB + ul && ul < HALF_LIMB && uh > 0
    ensures 0 <= res.0 < HALF_LIMB && res.1 < u1
    ensures res.0 * u1 + res.1 == HALF_LIMB * (BASE - 1 - u1) + HALF_LIMB - 1
  {
    hide ShiftHalf, HighHalfAdjust, FirstQuotient;
    var nu := BASE - 1 - u1;
    var qh := FirstQuotient(nu, uh);
    var e, p := nu - qh * uh, qh * ul;
    HighHalfCorrect(u1, uh, ul, nu, qh, e, p);
    HighHalfAdjust(qh, ShiftHalf(e) + (HALF_LIMB - 1), p, u1)
  }

  lemma HighHalfCorrect(u1: Limb, uh: nat, ul: nat, nu: nat, qh: nat, e: int, p: int)
    requires BASE / 2 <= u1 && u1 == uh * HALF_LIMB + ul && ul < HALF_LIMB && nu == BASE - 1 - u1 && uh > 0
      && qh == FirstQuotient(nu, uh)
    requires e == nu - qh * uh && p == qh * ul
    ensures 0 <= e < BASE && 0 <= p < BASE && ShiftHalf(e) + (HALF_LIMB - 1) < BASE
    ensures var res := HighHalfAdjust(qh, ShiftHalf(e) + (HALF_LIMB - 1), p, u1);
      0 <= res.0 < HALF_LIMB && res.1 < u1 && res.0 * u1 + res.1 == HALF_LIMB * (BASE - 1 - u1) + HALF_LIMB - 1
  {
    hide ShiftHalf, HighHalfAdjust;
    HighHalfStart(u1, uh, ul, nu, qh);
    HighHalfSettle(u1, qh, ShiftHalf(e) + (HALF_LIMB - 1), p, HALF_LIMB * nu + HALF_LIMB - 1);
  }

  lemma HighHalfStart(u1: Limb, uh: nat, ul: nat, nu: nat, qh: nat)
    requires BASE / 2 <= u1 && u1 == uh * HALF_LIMB + ul && ul < HALF_LIMB && nu == BASE - 1 - u1 && uh > 0
      && qh == nu / uh
    ensures var e := nu - qh * uh; 0 <= e < uh && e * HALF_LIMB + HALF_LIMB - 1 < u1 && ShiftHalf(e) == e * HALF_LIMB
    ensures 0 <= qh < HALF_LIMB && 0 <= qh * ul < BASE
    ensures qh * u1 + ((nu - qh * uh) * HALF_LIMB + HALF_LIMB - 1) - qh * ul == HALF_LIMB * nu + HALF_LIMB - 1
  {
    assert nu == uh * qh + nu % uh;
    HighHalfProduct(qh, uh, ul);
    CancelLt(uh, qh, HALF_LIMB);
    HalfProduct(HALF_LIMB, qh, ul);
    ShiftFits(nu - qh * uh);
  }

  lemma ShiftFits(e: nat)
    requires e < HALF_LIMB
    ensures ShiftHalf(e) == e * HALF_LIMB
  {
  }

  lemma HighHalfProduct(qh: int, uh: int, ul: int)
    ensures (qh * uh) * HALF_LIMB + qh * ul == qh * (uh * HALF_LIMB + ul) && qh * uh == uh * qh
  {
  }

  lemma HighHalfSettle(u1: Limb, qh: nat, r: Limb, p: Limb, n: nat)
    requires BASE / 2 <= u1 && qh < HALF_LIMB && r < u1
    requires qh * u1 + r - p == n
    ensures var (q, r') := HighHalfAdjust(qh, r, p, u1);
      0 <= q < HALF_LIMB && r' < u1 && q * u1 + r' == n
  {
    assert (qh - 1) * u1 == qh * u1 - u1 && (qh - 2) * u1 == qh * u1 - 2 * u1;
    if r < p {
      CancelLt(u1, 0, qh);
      if r + u1 < p {
        CancelLt(u1, 1, qh);
      }
    }
  }

  // ---- low half ----

  /** The reciprocal of one normalised limb, with its remainder. */
  function Reciprocal1(u1: Limb): (res: (nat, Limb))
    requires BASE / 2 <= u1
    ensures res.0 < BASE && res.1 < u1
    ensures (BASE + res.0) * u1 + res.1 == BASE_SQUARED - 1
  {
    var (qh, r) := HighHalf(u1);
    LowHalfNumerator(u1, qh, r);
    var p: Limb := (r / HALF_LIMB) * qh + r;
    var ql := p / HALF_LIMB + 1;
    var (xh, xl) := UmulPpmm(ql, u1);
    var x := SubLimb(ShiftHalf(r) + (HALF_LIMB - 1), xl);
    LowHalfCorrect(u1, qh, r, p, ql, xh, xl, x);
    var (ql', r') := LowHalfAdjust(ql, p, x, u1);
    (qh * HALF_LIMB + ql', r')
  }

  function LowHalfAdjust(ql: nat, p: Limb, x: Limb, u1: Limb): (int, Limb) {
    var (q1, r1) := if x >= ShiftHalf(p) then (ql - 1, AddLimb(x, u1)) else (ql, x);
    if r1 >= u1 then (q1 + 1, r1 - u1) else (q1, r1)
  }

  lemma HighHalfInverse(u1: Limb, qh: nat, r: Limb)
    requires r < u1 && qh * u1 + r == HALF_LIMB * (BASE - 1 - u1) + HALF_LIMB - 1
    ensures IsInverse3by2(HALF_LIMB, u1, qh)
  {
    assert (HALF_LIMB + qh) * u1 == HALF_LIMB * u1 + qh * u1;
    assert (HALF_LIMB + qh + 1) * u1 == (HALF_LIMB + qh) * u1 + u1;
  }

  lemma LowHalfNumerator(u1: Limb, qh: nat, r: Limb)
    requires BASE / 2 <= u1 && r < u1 && qh * u1 + r == HALF_LIMB * (BASE - 1 - u1) + HALF_LIMB - 1
    ensures var p := (r / HALF_LIMB) * qh + r; 0 <= p < BASE && p == (HALF_LIMB + qh) * (r / HALF_LIMB) + r % HALF_LIMB
  {
    var rh, rl := r / HALF_LIMB, r % HALF_LIMB;
    assert (HALF_LIMB + qh) * rh == HALF_LIMB * rh + rh * qh;
    MulPos(rh, qh);
    HighHalfInverse(u1, qh, r);
    CandidateFits(HALF_LIMB, BASE, u1, qh, rh, rl);
  }

  lemma LowHalfCorrect(u1: Limb, qh: nat, r: Limb, p: Limb, ql: nat, xh: Limb, xl: Limb, x: Limb)
    requires BASE / 2 <= u1 && qh < HALF_LIMB && r < u1
    requires qh * u1 + r == HALF_LIMB * (BASE - 1 - u1) + HALF_LIMB - 1
    requires p == (HALF_LIMB + qh) * (r / HALF_LIMB) + r % HALF_LIMB && ql == p / HALF_LIMB + 1
    requires Two(xh, xl) == ql * u1 && x == SubLimb(ShiftHalf(r) + (HALF_LIMB - 1), xl)
    ensures var (q, r') := LowHalfAdjust(ql, p, x, u1);
      0 <= q < HALF_LIMB && 0 <= r' < u1 && (BASE + (qh * HALF_LIMB + q)) * u1 + r' == BASE_SQUARED - 1
  {
    var rc := LowHalfWindow(u1, qh, r, p, ql);
    var m := LowResidue(r, xh, xl, x);
    LowHalfSettle(u1, ql, rc, p, x, m);
    LowHalfJoin(u1, qh, SettledQuotient(ql, rc, u1), r, SettledRemainder(rc, u1));
  }

  lemma LowResidue(r: Limb, xh: Limb, xl: Limb, x: Limb) returns (m: int)
    requires x == SubLimb(ShiftHalf(r) + (HALF_LIMB - 1), xl)
    ensures x == r * HALF_LIMB + HALF_LIMB - 1 - Two(xh, xl) + m * BASE
  {
    assert r * HALF_LIMB == (r / HALF_LIMB) * BASE + ShiftHalf(r);
    m := xh - r / HALF_LIMB + if ShiftHalf(r) + (HALF_LIMB - 1) >= xl then 0 else 1;
  }

  lemma LowHalfWindow(u1: Limb, qh: nat, r: Limb, p: Limb, ql: nat) returns (rc: int)
    requires BASE / 2 <= u1 && qh < HALF_LIMB && r < u1
    requires qh * u1 + r == HALF_LIMB * (BASE - 1 - u1) + HALF_LIMB - 1
    requires p == (HALF_LIMB + qh) * (r / HALF_LIMB) + r % HALF_LIMB && ql == p / HALF_LIMB + 1
    ensures rc == r * HALF_LIMB + HALF_LIMB - 1 - ql * u1
    ensures 0 - u1 <= rc && (p % HALF_LIMB) * HALF_LIMB - BASE <= rc
      && (rc < BASE - u1 || rc < (p % HALF_LIMB) * HALF_LIMB)
    ensures 0 <= SettledQuotient(ql, rc, u1) < HALF_LIMB && 0 <= SettledRemainder(rc, u1) < u1
    ensures r * HALF_LIMB + HALF_LIMB - 1 == SettledQuotient(ql, rc, u1) * u1 + SettledRemainder(rc, u1)
  {
    HighHalfInverse(u1, qh, r);
    rc := r * HALF_LIMB + HALF_LIMB - 1 - ql * u1;
    Window3(HALF_LIMB, u1, qh, r / HALF_LIMB, r % HALF_LIMB, HALF_LIMB - 1, p / HALF_LIMB, p % HALF_LIMB, rc);
    Settled(HALF_LIMB, r * HALF_LIMB + HALF_LIMB - 1, u1, ql, rc);
  }

  lemma LowHalfSettle(u1: Limb, ql: nat, rc: int, p: Limb, x: Limb, m: int)
    requires BASE / 2 <= u1 && x == rc + m * BASE
    requires 0 - u1 <= rc && (p % HALF_LIMB) * HALF_LIMB - BASE <= rc
      && (rc < BASE - u1 || rc < (p % HALF_LIMB) * HALF_LIMB)
    ensures LowHalfAdjust(ql, p, x, u1) == (SettledQuotient(ql, rc, u1), SettledRemainder(rc, u1))
  {
    assert x == if rc < 0 then rc + BASE else rc;
  }

  lemma LowHalfJoin(u1: Limb, qh: nat, ql: nat, r: nat, r': nat)
    requires qh * u1 + r == HALF_LIMB * (BASE - 1 - u1) + HALF_LIMB - 1
    requires ql * u1 + r' == r * HALF_LIMB + HALF_LIMB - 1
    ensures (BASE + (qh * HALF_LIMB + ql)) * u1 + r' == BASE_SQUARED - 1
  {
    assert (BASE + (qh * HALF_LIMB + ql)) * u1 == BASE * u1 + HALF_LIMB * (qh * u1) + ql * u1;
  }

  // ---- taking the second limb into account ----

  /** First correction: afterwards r = (b + m) u1 + u0 - (b^2 - b), and r is within u1 of b. */
  function FirstCorrection(m: nat, r: Limb, u1: Limb, u0: Limb): (res: (int, Limb)) {
    var r1 := AddLimb(BASE - 1 - r, u0);
    if r1 < u0 then
      if r1 >= u1 then (m - 2, SubLimb(r1 - u1, u1)) else (m - 1, SubLimb(r1, u1))
    else
      (m, r1)
  }

  lemma FirstCorrectionValue(m: nat, r: Limb, u1: Limb, u0: Limb)
    requires BASE / 2 <= u1 && u0 > 0 && r < u1 && (BASE + m) * u1 + r == BASE_SQUARED - 1
    ensures var (m', r') := FirstCorrection(m, r, u1, u0);
      0 <= m' <= m && BASE - u1 <= r' && (BASE + m') * u1 + u0 == BASE_SQUARED - BASE + r'
  {
    assert (BASE + m - 1) * u1 == (BASE + m) * u1 - u1 && (BASE + m - 2) * u1 == (BASE + m) * u1 - 2 * u1;
    assert (BASE + m) * u1 == BASE * u1 + m * u1;
    if BASE - 1 - r + u0 >= BASE {
      CancelLt(u1, 0, m);
      if BASE - 1 - r + u0 - BASE >= u1 {
        CancelLt(u1, 1, m);
      }
    }
  }

  function SecondCorrection(m: Limb, r: Limb, u1: Limb, u0: Limb): int {
    var (th, tl) := UmulPpmm(u0, m);
    var r1 := AddLimb(r, th);
    if r1 < th then m - 1 - (if r1 > u1 || (r1 == u1 && tl > u0) then 1 else 0) else m
  }

  lemma SecondCorrectionValue(m: Limb, r: Limb, u1: Limb, u0: Limb)
    requires BASE / 2 <= u1 && u0 > 0 && BASE - u1 <= r && (BASE + m) * u1 + u0 == BASE_SQUARED - BASE + r
    ensures var m' := SecondCorrection(m, r, u1, u0);
      0 <= m' <= m && IsInverse3by2(BASE, Two(u1, u0), m')
  {
    var (th, tl) := UmulPpmm(u0, m);
    assert u0 * m == th * BASE + tl;
    SecondExpand(m, r, u1, u0);
    if r + th < BASE {
      SecondNext(m, r, u1, u0);
    } else {
      SecondCarry(m, r + th - BASE, tl, u1, u0);
    }
  }

  /** The carry case: b + m is one or two too large. */
  lemma SecondCarry(m: Limb, e: Limb, tl: Limb, u1: Limb, u0: Limb)
    requires BASE / 2 <= u1 && u0 > 0
    requires (BASE + m) * Two(u1, u0) == BASE * BASE_SQUARED + Two(e, tl)
    ensures var c := if e > u1 || (e == u1 && tl > u0) then 1 else 0;
      m >= 1 + c && IsInverse3by2(BASE, Two(u1, u0), m - 1 - c)
  {
    var d := Two(u1, u0);
    SecondCarryCount(d, BASE + m, Two(e, tl));
    assert Two(e, tl) > d <==> e > u1 || (e == u1 && tl > u0);
  }

  lemma SecondCarryCount(d: nat, v: nat, e: nat)
    requires BASE_SQUARED / 2 < d < BASE_SQUARED && e < BASE_SQUARED && v * d == BASE * BASE_SQUARED + e
    ensures v - 1 >= BASE && (v - 1) * d == v * d - d
    ensures e > d ==> v - 2 >= BASE && (v - 2) * d <= BASE * BASE_SQUARED - 1
    ensures e != d
  {
    assert (v - 1) * d == v * d - d && (v - 2) * d == v * d - 2 * d;
    NoTie(d, v - 1);
    MulLt(BASE, d, BASE_SQUARED);
    CancelLt(d, BASE, v);
    if e > d {
      CancelLt(d, BASE, v - 1);
    }
  }

  lemma SecondExpand(m: nat, r: nat, u1: Limb, u0: Limb)
    requires (BASE + m) * u1 + u0 == BASE_SQUARED - BASE + r
    ensures (BASE + m) * Two(u1, u0) == BASE * (BASE_SQUARED - BASE + r) + u0 * m
  {
    assert (BASE + m) * (u1 * BASE + u0) == BASE * ((BASE + m) * u1) + BASE * u0 + m * u0;
  }

  lemma SecondNext(m: nat, r: nat, u1: Limb, u0: Limb)
    requires (BASE + m) * u1 + u0 == BASE_SQUARED - BASE + r && BASE - u1 <= r
    ensures (BASE + m + 1) * Two(u1, u0) >= BASE * BASE_SQUARED
  {
    assert (BASE + (m + 1)) * u1 + u0 == BASE_SQUARED - BASE + (r + u1)
      by { assert (BASE + m + 1) * u1 == (BASE + m) * u1 + u1; }
    SecondExpand(m + 1, r + u1, u1, u0);
    MulPos(u0, m + 1);
  }

  // ---- why a strict comparison is enough ----

  /** A number strictly between two consecutive powers of two divides no power of two. */
  lemma {:induction false} NoDivisorBetween(d: nat, k: nat, n: nat, a: nat)
    requires Pow(2, a) < d < Pow(2, a + 1)
    ensures d * k != Pow(2, n)
    decreases n
  {
    PowPos(2, a);
    if n == 0 {
      if k > 0 { MulLe(d, 1, k); }
    } else if d % 2 == 0 {
      assert a > 0;
      NoDivisorBetween(d / 2, k, n - 1, a - 1);
      assert d * k == 2 * ((d / 2) * k) by { assert d == 2 * (d / 2); }
    } else if k % 2 == 0 {
      NoDivisorBetween(d, k / 2, n - 1, a);
      assert d * k == 2 * (d * (k / 2)) by { assert k == 2 * (k / 2); }
    } else {
      OddProduct(d, k);
    }
  }

  lemma OddProduct(d: nat, k: nat)
    requires d % 2 == 1 && k % 2 == 1
    ensures (d * k) % 2 == 1
  {
    var i, j := d / 2, k / 2;
    assert d * k == (2 * i + 1) * (2 * j + 1) == 2 * (2 * (i * j) + i + j) + 1;
  }

  lemma LimbPower()
    ensures Pow(2, 64) == BASE && Pow(2, 127) == BASE_SQUARED / 2 && Pow(2, 128) == BASE_SQUARED
      && Pow(2, 192) == BASE * BASE_SQUARED
  {
    hide Pow;
    PowByte();
    PowAdd(2, 8, 8);
    PowAdd(2, 16, 16);
    PowAdd(2, 32, 32);
    PowAdd(2, 64, 64);
    PowAdd(2, 64, 128);
    PowStep(2, 127);
  }

  lemma PowByte()
    ensures Pow(2, 8) == 256
  {
  }

  lemma NoTie(d: nat, k: nat)
    requires BASE_SQUARED / 2 < d < BASE_SQUARED
    ensures k * d != BASE * BASE_SQUARED
  {
    LimbPower();
    NoDivisorBetween(d, k, 192, 127);
    assert k * d == d * k;
  }

  // ---- the whole function ----

  /** floor((b^3 - 1) / (b u1 + u0)) - b. */
  function InvertThreeByTwo(u1: Limb, u0: Limb): (m: Limb)
    requires BASE / 2 <= u1
    ensures IsInverse3by2(BASE, Two(u1, u0), m)
    ensures u0 == 0 ==> IsInverse2by1(BASE, u1, m)
  {
    var (m0, r0) := Reciprocal1(u1);
    SingleLimb(u1, m0, r0);
    if u0 > 0 then
      FirstCorrectionValue(m0, r0, u1, u0);
      var (m1, r1) := FirstCorrection(m0, r0, u1, u0);
      SecondCorrectionValue(m1, r1, u1, u0);
      SecondCorrection(m1, r1, u1, u0)
    else
      m0
  }

  lemma SingleLimb(u1: Limb, m: nat, r: nat)
    requires (BASE + m) * u1 + r == BASE_SQUARED - 1 && r < u1
    ensures IsInverse2by1(BASE, u1, m) && IsInverse3by2(BASE, Two(u1, 0), m)
  {
    assert (BASE + m + 1) * u1 == (BASE + m) * u1 + u1;
    assert (BASE + m) * (u1 * BASE) == BASE * ((BASE + m) * u1)
      && (BASE + m + 1) * (u1 * BASE) == BASE * ((BASE + m + 1) * u1);
  }
}
