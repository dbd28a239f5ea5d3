/** The limb-level building blocks of mini-gmp, with their 64-bit wrap-around. */
module Limbs {
  import opened Arith
  import opened ReciprocalDivision

  const BASE: nat := 0x1_0000_0000_0000_0000  // one limb
  const HALF_LIMB: nat := 0x1_0000_0000            // half a limb
  const BASE_SQUARED: nat := 0x1_0000_0000_0000_0000_0000_0000_0000_0000  // two limbs

  type Limb = x: nat | x < BASE

  /** Unsigned 64-bit addition and subtraction. */
  function AddLimb(a: Limb, b: Limb): Limb {
    if a + b < BASE then a + b else a + b - BASE
  }

  function SubLimb(a: Limb, b: Limb): Limb {
    if a >= b then a - b else a + BASE - b
  }

  function Two(h: Limb, l: Limb): (v: nat)
    ensures v < BASE_SQUARED
  {
    h * BASE + l
  }

  lemma TwoInjective(a1: Limb, a0: Limb, b1: Limb, b0: Limb)
    requires Two(a1, a0) == Two(b1, b0)
    ensures a1 == b1 && a0 == b0
  {
  }

  // ---- gmp_umul_ppmm ----

  lemma HalfProduct(h: nat, a: nat, b: nat)
    requires a < h && b < h
    ensures 0 <= a * b <= (h - 1) * (h - 1)
  {
    MulPos(a, b);
    MulLe(a, b, h - 1);
    MulLe(h - 1, a, h - 1);
  }

  lemma SplitProduct(h: nat, uh: nat, ul: nat, vh: nat, vl: nat)
    ensures (uh * h + ul) * (vh * h + vl) == (uh * vh) * (h * h) + (uh * vl + ul * vh) * h + ul * vl
  {
    assert (uh * h) * (vh * h) == (uh * vh) * (h * h);
    assert (uh * h + ul) * (vh * h + vl)
        == (uh * h) * (vh * h) + ul * (vh * h) + (uh * h) * vl + ul * vl;
    assert ul * (vh * h) == (ul * vh) * h && (uh * h) * vl == (uh * vl) * h;
  }

  type HalfPair = x: nat | x <= 0xFFFF_FFFE_0000_0001

  /** The double-limb product, assembled from four half-limb products. */
  function UmulPpmm(u: Limb, v: Limb): (w: (Limb, Limb))
    ensures Two(w.0, w.1) == u * v
  {
    var ul, uh, vl, vh := u % HALF_LIMB, u / HALF_LIMB, v % HALF_LIMB, v / HALF_LIMB;
    HalfProduct(HALF_LIMB, ul, vl); HalfProduct(HALF_LIMB, ul, vh);
    HalfProduct(HALF_LIMB, uh, vl); HalfProduct(HALF_LIMB, uh, vh);
    SplitProduct(HALF_LIMB, uh, ul, vh, vl);
    assert u * v == (uh * HALF_LIMB + ul) * (vh * HALF_LIMB + vl);
    HalfProduct(BASE, u, v);
    var x0: HalfPair, x1: HalfPair, x2: HalfPair, x3: HalfPair := ul * vl, ul * vh, uh * vl, uh * vh;
    assert u * v == x3 * BASE + (x1 + x2) * HALF_LIMB + x0;
    UmulCombine(x0, x1, x2, x3)
  }

  function UmulCombine(x0: HalfPair, x1: HalfPair, x2: HalfPair, x3: HalfPair): (w: (Limb, Limb))
    requires x3 * BASE + (x1 + x2) * HALF_LIMB + x0 < BASE_SQUARED
    ensures Two(w.0, w.1) == x3 * BASE + (x1 + x2) * HALF_LIMB + x0
  {
    var y1 := x1 + x0 / HALF_LIMB;  // cannot carry
    var z1 := AddLimb(y1, x2);
    var z3 := if z1 < x2 then x3 + HALF_LIMB else x3;
    assert z3 * BASE + z1 * HALF_LIMB + x0 % HALF_LIMB == x3 * BASE + (x1 + x2) * HALF_LIMB + x0;
    (z3 + z1 / HALF_LIMB, (z1 % HALF_LIMB) * HALF_LIMB + x0 % HALF_LIMB)
  }

  /** The low limb of a product, as C's `*` on limbs gives it. */
  function MulLow(a: Limb, b: Limb): Limb {
    UmulPpmm(a, b).1
  }

  // ---- gmp_add_ssaaaa, gmp_sub_ddmmss ----

  function AddSsaaaa(ah: Limb, al: Limb, bh: Limb, bl: Limb): (s: (Limb, Limb))
    ensures var t := Two(ah, al) + Two(bh, bl); Two(s.0, s.1) == if t < BASE_SQUARED then t else t - BASE_SQUARED
  {
    var x := AddLimb(al, bl);
    (AddLimb(AddLimb(ah, bh), if x < al then 1 else 0), x)
  }

  function SubDdmmss(ah: Limb, al: Limb, bh: Limb, bl: Limb): (s: (Limb, Limb))
    ensures var t := Two(ah, al) - Two(bh, bl); Two(s.0, s.1) == if t >= 0 then t else t + BASE_SQUARED
  {
    (SubLimb(SubLimb(ah, bh), if al < bl then 1 else 0), SubLimb(al, bl))
  }

  // ---- settling a candidate quotient ----

  /** The true quotient digit and remainder, from a candidate off by at most one. */
  ghost function SettledQuotient(qc: nat, rc: int, d: nat): int {
    if rc < 0 then qc - 1 else if rc < d then qc else qc + 1
  }

  ghost function SettledRemainder(rc: int, d: nat): int {
    if rc < 0 then rc + d else if rc < d then rc else rc - d
  }

  lemma Settled(b: nat, n: nat, d: nat, qc: nat, rc: int)
    requires d > 0 && n < d * b && n == qc * d + rc && 0 - d <= rc < 2 * d
    ensures 0 <= SettledQuotient(qc, rc, d) < b
    ensures n == SettledQuotient(qc, rc, d) * d + SettledRemainder(rc, d)
    ensures 0 <= SettledRemainder(rc, d) < d
  {
    var q := SettledQuotient(qc, rc, d);
    assert (qc + 1) * d == qc * d + d && (qc - 1) * d == qc * d - d;
    assert n == q * d + SettledRemainder(rc, d);
    CancelLt(d, 0, q + 1);
    CancelLt(d, q, b);
  }

  // ---- gmp_udiv_qrnnd_preinv ----

  function QrnndAdjust(qh: Limb, ql: Limb, r: Limb, d: Limb): (Limb, Limb) {
    var (q1, r1) := if r > ql then (SubLimb(qh, 1), AddLimb(r, d)) else (qh, r);
    if r1 >= d then (AddLimb(q1, 1), r1 - d) else (q1, r1)
  }

  /** Two limbs by one, given the reciprocal of the normalised divisor. */
  function UdivQrnndPreinv(nh: Limb, nl: Limb, d: Limb, di: Limb): (res: (Limb, Limb))
    requires BASE / 2 <= d && nh < d && IsInverse2by1(BASE, d, di)
    ensures res.0 * d + res.1 == Two(nh, nl) && res.1 < d
  {
    var (ph, pl) := UmulPpmm(nh, di);
    var (qh, ql) := AddSsaaaa(ph, pl, AddLimb(nh, 1), nl);
    var (th, tl) := UmulPpmm(qh, d);
    var r := SubLimb(nl, tl);
    assert MulLow(qh, d) == tl;
    QrnndCorrect(nh, nl, d, di, Two(ph, pl), qh, ql, th, tl, r);
    QrnndAdjust(qh, ql, r, d)
  }

  lemma QrnndCorrect(nh: Limb, nl: Limb, d: Limb, di: Limb, p: nat, qh: Limb, ql: Limb, th: Limb, tl: Limb, r: Limb)
    requires BASE / 2 <= d && nh < d && IsInverse2by1(BASE, d, di)
    requires p == nh * di
    requires var t := p + Two(AddLimb(nh, 1), nl); Two(qh, ql) == if t < BASE_SQUARED then t else t - BASE_SQUARED
    requires Two(th, tl) == qh * d && r == SubLimb(nl, tl)
    ensures var (q, r') := QrnndAdjust(qh, ql, r, d); q * d + r' == Two(nh, nl) && r' < d
  {
    var qc, k := QrnndCandidate(nh, nl, p, qh, ql);
    var rc := QrnndWindow(nh, nl, d, di, qc, ql);
    assert qc * d == Two(th, tl) + (k * d) * BASE by { assert qc == qh + k * BASE; }
    QrnndSettle(d, qc, rc, ql, qh, r, nh - th - k * d, if nl < tl then 1 else 0);
  }

  lemma QrnndWindow(nh: Limb, nl: Limb, d: Limb, di: Limb, qc: nat, ql: Limb) returns (rc: int)
    requires BASE / 2 <= d && nh < d && IsInverse2by1(BASE, d, di)
    requires qc >= 1 && nh * di + nh * BASE + nl == (qc - 1) * BASE + ql
    ensures rc == Two(nh, nl) - qc * d
    ensures 0 - d <= rc && ql - BASE < rc && (rc < BASE - d || rc < ql)
    ensures 0 <= SettledQuotient(qc, rc, d) < BASE && 0 <= SettledRemainder(rc, d) < d
    ensures Two(nh, nl) == SettledQuotient(qc, rc, d) * d + SettledRemainder(rc, d)
  {
    assert (BASE + di) * nh == nh * BASE + nh * di;
    rc := Two(nh, nl) - qc * d;
    Window2(BASE, d, di, nh, nl, qc - 1, ql, rc);
    MulLe(BASE, nh + 1, d);
    Settled(BASE, Two(nh, nl), d, qc, rc);
  }

  /** The candidate quotient: one more than the high limb of (b + di) nh + nl. */
  lemma QrnndCandidate(nh: Limb, nl: Limb, p: nat, qh: Limb, ql: Limb) returns (qc: nat, k: nat)
    requires var t := p + Two(AddLimb(nh, 1), nl); Two(qh, ql) == if t < BASE_SQUARED then t else t - BASE_SQUARED
    ensures qc >= 1 && p + nh * BASE + nl == (qc - 1) * BASE + ql
    ensures qc == qh + k * BASE
  {
    var t := p + Two(AddLimb(nh, 1), nl);
    k := (if nh + 1 == BASE then 1 else 0) + if t >= BASE_SQUARED then 1 else 0;
    qc := qh + k * BASE;
    assert p + nh * BASE + nl + BASE == Two(qh, ql) + k * BASE_SQUARED;
  }

  lemma QrnndSettle(d: Limb, qc: nat, rc: int, q0: Limb, qh: Limb, r: Limb, m: int, c: int)
    requires BASE / 2 <= d && 0 <= SettledQuotient(qc, rc, d) < BASE
    requires (qh == qc || qh == qc - BASE) && r == rc - m * BASE + c * BASE && 0 <= c <= 1
    requires 0 - d <= rc && q0 - BASE < rc && (rc < BASE - d || rc < q0)
    ensures QrnndAdjust(qh, q0, r, d) == (SettledQuotient(qc, rc, d), SettledRemainder(rc, d))
  {
    assert r == if rc < 0 then rc + BASE else rc;
  }

  // ---- gmp_udiv_qr_3by2 ----

  function Qr3by2Lower(q: Limb, q0: Limb, r1: Limb, r0: Limb, d1: Limb, d0: Limb): (res: (Limb, Limb, Limb))
    ensures r1 >= q0 ==>
      && res.0 == SubLimb(q, 1)
      && var t := Two(r1, r0) + Two(d1, d0); Two(res.1, res.2) == if t < BASE_SQUARED then t else t - BASE_SQUARED
    ensures r1 < q0 ==> res == (q, r1, r0)
  {
    if r1 >= q0 then
      var (a1, a0) := AddSsaaaa(r1, r0, d1, d0);
      (SubLimb(q, 1), a1, a0)
    else
      (q, r1, r0)
  }

  function Qr3by2Raise(q: Limb, r1: Limb, r0: Limb, d1: Limb, d0: Limb): (res: (Limb, Limb, Limb))
    ensures Two(r1, r0) >= Two(d1, d0) ==>
      res.0 == AddLimb(q, 1) && Two(res.1, res.2) == Two(r1, r0) - Two(d1, d0)
    ensures Two(r1, r0) < Two(d1, d0) ==> res == (q, r1, r0)
  {
    if r1 >= d1 && (r1 > d1 || r0 >= d0) then
      var (b1, b0) := SubDdmmss(r1, r0, d1, d0);
      (AddLimb(q, 1), b1, b0)
    else
      (q, r1, r0)
  }

  function Qr3by2Adjust(q: Limb, q0: Limb, r1: Limb, r0: Limb, d1: Limb, d0: Limb): (Limb, Limb, Limb) {
    var (qa, a1, a0) := Qr3by2Lower(q, q0, r1, r0, d1, d0);
    Qr3by2Raise(qa, a1, a0, d1, d0)
  }

  /** Three limbs by two, given the reciprocal of the normalised divisor. */
  function UdivQr3by2(n2: Limb, n1: Limb, n0: Limb, d1: Limb, d0: Limb, dinv: Limb): (res: (Limb, Limb, Limb))
    requires BASE / 2 <= d1 && Two(n2, n1) < Two(d1, d0) && IsInverse3by2(BASE, Two(d1, d0), dinv)
    ensures res.0 * Two(d1, d0) + Two(res.1, res.2) == n2 * BASE_SQUARED + Two(n1, n0)
    ensures Two(res.1, res.2) < Two(d1, d0)
  {
    var (p1, p0) := UmulPpmm(n2, dinv);
    var (q, q0) := AddSsaaaa(p1, p0, n2, n1);
    var (x1, x0) := UmulPpmm(d1, q);
    assert MulLow(d1, q) == x0;
    var (y1, y0) := SubDdmmss(SubLimb(n1, x0), n0, d1, d0);
    var (t1, t0) := UmulPpmm(d0, q);
    var (r1, r0) := SubDdmmss(y1, y0, t1, t0);
    Qr3by2Correct(n2, n1, n0, d1, d0, dinv, Two(p1, p0), q, q0, x1, x0, Two(y1, y0), Two(t1, t0), r1, r0);
    Qr3by2Adjust(AddLimb(q, 1), q0, r1, r0, d1, d0)
  }

  lemma Qr3by2Correct(n2: Limb, n1: Limb, n0: Limb, d1: Limb, d0: Limb, dinv: Limb, p: nat,
                      q: Limb, q0: Limb, x1: Limb, x0: Limb, y: nat, t: nat, r1: Limb, r0: Limb)
    requires BASE / 2 <= d1 && Two(n2, n1) < Two(d1, d0) && IsInverse3by2(BASE, Two(d1, d0), dinv)
    requires p == n2 * dinv
    requires var s := p + Two(n2, n1); Two(q, q0) == if s < BASE_SQUARED then s else s - BASE_SQUARED
    requires Two(x1, x0) == d1 * q && t == d0 * q
    requires var z := Two(SubLimb(n1, x0), n0) - Two(d1, d0); y == if z >= 0 then z else z + BASE_SQUARED
    requires Two(r1, r0) == if y >= t then y - t else y - t + BASE_SQUARED
    ensures var (q', r1', r0') := Qr3by2Adjust(AddLimb(q, 1), q0, r1, r0, d1, d0);
      && q' * Two(d1, d0) + Two(r1', r0') == n2 * BASE_SQUARED + Two(n1, n0)
      && Two(r1', r0') < Two(d1, d0)
  {
    var d, e := Two(d1, d0), (q + 1) * Two(d1, d0);
    assert e == Two(x1, x0) * BASE + t + d by { Qr3by2Expand(q, d1, d0); }
    Qr3by2Candidate(n2, n1, d, dinv, q, q0, p);
    var k := Qr3by2Residue(n1, n0, d, x1, x0, y, t, Two(r1, r0));
    var rc := n2 * BASE_SQUARED + Two(n1, n0) - e;
    Qr3by2Window(n2, n1, n0, d, dinv, q, q0, rc, Two(r1, r0), k - n2);
    Qr3by2Settle(d1, d0, q + 1, rc, q0, AddLimb(q, 1), r1, r0);
  }

  lemma Qr3by2Expand(q: int, d1: Limb, d0: Limb)
    ensures (q + 1) * Two(d1, d0) == (d1 * q) * BASE + d0 * q + Two(d1, d0)
  {
  }

  /** The two-limb residue is n - (q + 1) d up to a multiple of BASE^2; the multiple. */
  lemma Qr3by2Residue(n1: Limb, n0: Limb, d: nat, x1: Limb, x0: Limb, y: nat, t: nat, r: nat)
    returns (k: int)
    requires var z := Two(SubLimb(n1, x0), n0) - d; y == if z >= 0 then z else z + BASE_SQUARED
    requires r == if y >= t then y - t else y - t + BASE_SQUARED
    ensures r == Two(n1, n0) - (Two(x1, x0) * BASE + t + d) + k * BASE_SQUARED
  {
    var k1 := if n1 >= x0 then 0 else 1;
    var k2 := if Two(SubLimb(n1, x0), n0) >= d then 0 else 1;
    var k3 := if y >= t then 0 else 1;
    k := x1 + k1 + k2 + k3;
  }

  lemma Qr3by2Candidate(n2: Limb, n1: Limb, d: nat, dinv: Limb, q: Limb, q0: Limb, p: nat)
    requires BASE <= d < BASE_SQUARED && Two(n2, n1) < d && IsInverse3by2(BASE, d, dinv)
    requires p == n2 * dinv
    requires var t := p + Two(n2, n1); Two(q, q0) == if t < BASE_SQUARED then t else t - BASE_SQUARED
    ensures (BASE + dinv) * n2 + n1 == q * BASE + q0
  {
    CandidateFits(BASE, BASE_SQUARED, d, dinv, n2, n1);
    assert (BASE + dinv) * n2 == p + n2 * BASE;
  }

  /** Where the candidate remainder lies, and how its residue shows it. */
  lemma Qr3by2Window(n2: Limb, n1: Limb, n0: Limb, d: nat, dinv: Limb, q: Limb, q0: Limb, rc: int, r: nat, m: int)
    requires BASE_SQUARED <= 2 * d && d < BASE_SQUARED && Two(n2, n1) < d && IsInverse3by2(BASE, d, dinv)
    requires (BASE + dinv) * n2 + n1 == q * BASE + q0
    requires rc == n2 * BASE_SQUARED + Two(n1, n0) - (q + 1) * d
    requires r < BASE_SQUARED && r == rc + m * BASE_SQUARED
    ensures r == if rc < 0 then rc + BASE_SQUARED else rc
    ensures 0 - d <= rc && q0 * BASE - BASE_SQUARED <= rc && (rc < BASE_SQUARED - d || rc < q0 * BASE)
    ensures 0 <= SettledQuotient(q + 1, rc, d) < BASE && 0 <= SettledRemainder(rc, d) < d
    ensures n2 * BASE_SQUARED + Two(n1, n0) == SettledQuotient(q + 1, rc, d) * d + SettledRemainder(rc, d)
  {
    Window3(BASE, d, dinv, n2, n1, n0, q, q0, rc);
    MulLe(BASE, Two(n2, n1) + 1, d);
    Settled(BASE, n2 * BASE_SQUARED + Two(n1, n0), d, q + 1, rc);
  }

  lemma Qr3by2Settle(d1: Limb, d0: Limb, qc: nat, rc: int, q0: Limb, qh: Limb, r1: Limb, r0: Limb)
    requires BASE / 2 <= d1 && 0 <= SettledQuotient(qc, rc, Two(d1, d0)) < BASE && qc <= BASE
    requires qh == (if qc == BASE then 0 else qc)
    requires Two(r1, r0) == if rc < 0 then rc + BASE_SQUARED else rc
    requires 0 - Two(d1, d0) <= rc && q0 * BASE - BASE_SQUARED <= rc
      && (rc < BASE_SQUARED - Two(d1, d0) || rc < q0 * BASE)
    ensures var (q', r1', r0') := Qr3by2Adjust(qh, q0, r1, r0, d1, d0);
      && q' == SettledQuotient(qc, rc, Two(d1, d0))
      && Two(r1', r0') == SettledRemainder(rc, Two(d1, d0))
  {
    var d := Two(d1, d0);
    var (qa, a1, a0) := Qr3by2Lower(qh, q0, r1, r0, d1, d0);
    if rc < 0 {
      assert r1 >= q0;
      assert Two(a1, a0) == rc + d;
    } else if r1 >= q0 {
      assert Two(a1, a0) == rc + d;
    } else {
      assert Two(a1, a0) == rc;
    }
  }
}
