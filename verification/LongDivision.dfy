/** mpn_div_qr and the routines it dispatches to, for divisors of one limb, of two limbs, and of
    any number of limbs. */
module LongDivision {
  import opened Arith
  import opened Numerals
  import opened ReciprocalDivision
  import opened Limbs
  import opened DivisorInverse
  import opened LimbArrays
  import opened QuotientLimb

  /** `s` with `nh` on top is `q` times `d` plus a remainder `r` below `d`. */
  ghost predicate Divides(s: seq<Limb>, nh: Limb, q: seq<Limb>, d: nat, r: nat) {
    Partial(s, nh) == V(q) * d + r && r < d
  }

  /** The source passes a null quotient pointer when only the remainder is wanted. */
  predicate HasRoom(qp: array?<Limb>, n: int) {
    qp != null ==> n <= qp.Length
  }

  /** A quotient array, where there is one, holds the limbs `qs` from index i on. */
  ghost predicate Stores(qp: array?<Limb>, i: nat, qs: seq<Limb>)
    reads qp
  {
    qp != null ==> i + |qs| <= qp.Length && qp[i..i + |qs|] == qs
  }

  /** Bringing down one limb extends the quotient by one limb. */
  lemma DivRound(x: Limb, s: seq<Limb>, nh: Limb, qs: seq<Limb>, d: nat, r: nat, q: Limb, r': nat)
    requires Divides(s, nh, qs, d, r)
    requires q * d + r' == x + BASE * r && r' < d
    ensures Divides([x] + s, nh, [q] + qs, d, r')
  {
    assert ([x] + s)[1..] == s;
    PartialCons([x] + s, nh);
    ValCons(BASE, q, qs);
    DivRoundStep(V(qs), d, r, q);
  }

  lemma DivRoundStep(v: int, d: int, r: int, q: int)
    ensures BASE * (v * d + r) == (q + BASE * v) * d - q * d + BASE * r
  {
  }

  lemma DivStart(s: seq<Limb>, nh: Limb, d: nat)
    requires Partial(s, nh) < d
    ensures Divides(s, nh, [], d, Partial(s, nh))
  {
  }

  // ---- mpn_div_qr_pi1: divisors of three limbs and more ----

  method DivStep(np: array<Limb>, i: nat, n1: Limb, dp: seq<Limb>, dinv: Limb) returns (q: Limb, n1': Limb)
    requires |dp| > 2 && i + |dp| <= np.Length && dp[|dp| - 1] >= BASE / 2
    requires IsInverse3by2(BASE, Two(dp[|dp| - 1], dp[|dp| - 2]), dinv)
    requires Partial(np[i + 1..i + |dp|], n1) < V(dp)
    modifies np
    ensures np[..i] == old(np[..i]) && np[i + |dp|..] == old(np[i + |dp|..])
    ensures q * V(dp) + Partial(np[i..i + |dp| - 1], n1') == old(Partial(np[i..i + |dp|], n1))
    ensures Partial(np[i..i + |dp| - 1], n1') < V(dp)
  {
    if n1 == dp[|dp| - 1] && np[i + |dp| - 1] == dp[|dp| - 2] {
      q := BASE - 1;
      n1' := DivStepMax(np, i, n1, dp);
    } else {
      q, n1' := DivStepEstimate(np, i, n1, dp, dinv);
    }
  }

  /** One round: a quotient limb into qp[i], the partial remainder one limb down. */
  method DivAdvance(qp: array?<Limb>, np: array<Limb>, i: nat, n1: Limb, dp: seq<Limb>, dinv: Limb,
                    ghost s: seq<Limb>, ghost nh: Limb, ghost qs: seq<Limb>)
    returns (n1': Limb, ghost q': Limb)
    requires qp != np && |dp| > 2 && i + |dp| <= np.Length && HasRoom(qp, i + 1 + |qs|) && Stores(qp, i + 1, qs)
    requires dp[|dp| - 1] >= BASE / 2 && IsInverse3by2(BASE, Two(dp[|dp| - 1], dp[|dp| - 2]), dinv)
    requires Divides(s, nh, qs, V(dp), Partial(np[i + 1..i + |dp|], n1))
    modifies qp, np
    ensures np[..i] == old(np[..i]) && np[i + |dp|..] == old(np[i + |dp|..])
    ensures Stores(qp, i, [q'] + qs)
    ensures qp != null ==> qp[i + 1 + |qs|..] == old(qp[i + 1 + |qs|..])
    ensures Divides([old(np[i])] + s, nh, [q'] + qs, V(dp), Partial(np[i..i + |dp| - 1], n1'))
  {
    hide Val, Pow, Partial, IsInverse3by2;
    var dn := |dp|;
    ghost var r, x := Partial(np[i + 1..i + dn], n1), np[i];
    PartialCons(np[i..i + dn], n1);
    assert np[i..i + dn][1..] == np[i + 1..i + dn];
    var q: Limb;
    q, n1' := DivStep(np, i, n1, dp, dinv);
    StoreLimb(qp, i, q, qs);
    q' := q;
    DivRound(x, s, nh, qs, V(dp), r, q, Partial(np[i..i + dn - 1], n1'));
  }

  method DivQrPi1(qp: array?<Limb>, np: array<Limb>, nn: nat, nh: Limb, dp: seq<Limb>, dinv: Limb)
    returns (ghost q: seq<Limb>)
    requires qp != np && 2 < |dp| <= nn <= np.Length && HasRoom(qp, nn - |dp| + 1)
    requires dp[|dp| - 1] >= BASE / 2 && IsInverse3by2(BASE, Two(dp[|dp| - 1], dp[|dp| - 2]), dinv)
    requires Partial(np[nn - |dp| + 1..nn], nh) < V(dp)
    modifies qp, np
    ensures |q| == nn - |dp| + 1 && Stores(qp, 0, q) && np[nn..] == old(np[nn..])
    ensures qp != null ==> qp[nn - |dp| + 1..] == old(qp[nn - |dp| + 1..])
    ensures Divides(old(np[..nn]), nh, q, V(dp), V(np[..|dp|]))
  {
    var n1: Limb;
    n1, q := DivLoopPi1(qp, np, nn, nh, dp, dinv);
    ghost var s := np[..|dp| - 1];
    np[|dp| - 1] := n1;
    assert np[..|dp|] == s + [n1];
    ValSnoc(BASE, s, n1);
  }

  method DivLoopPi1(qp: array?<Limb>, np: array<Limb>, nn: nat, nh: Limb, dp: seq<Limb>, dinv: Limb)
    returns (n1: Limb, ghost q: seq<Limb>)
    requires qp != np && 2 < |dp| <= nn <= np.Length && HasRoom(qp, nn - |dp| + 1)
    requires dp[|dp| - 1] >= BASE / 2 && IsInverse3by2(BASE, Two(dp[|dp| - 1], dp[|dp| - 2]), dinv)
    requires Partial(np[nn - |dp| + 1..nn], nh) < V(dp)
    modifies qp, np
    ensures |q| == nn - |dp| + 1 && Stores(qp, 0, q) && np[nn..] == old(np[nn..])
    ensures qp != null ==> qp[nn - |dp| + 1..] == old(qp[nn - |dp| + 1..])
    ensures Divides(old(np[..nn]), nh, q, V(dp), Partial(np[..|dp| - 1], n1))
  {
    hide Val, Pow, Divides, IsInverse3by2;
    ghost var s0 := np[..];
    var m := nn - |dp| + 1;
    var i := m;
    n1, q := nh, [];
    DivStart(np[m..nn], nh, V(dp));
    assert s0[m..nn] == np[m..nn] == np[m..m + |dp| - 1];
    while i > 0
      invariant 0 <= i <= m && np[..i] == s0[..i] && np[nn..] == s0[nn..]
      invariant |q| == m - i && Stores(qp, i, q) && (qp != null ==> qp[m..] == old(qp[m..]))
      invariant Divides(s0[i..nn], nh, q, V(dp), Partial(np[i..i + |dp| - 1], n1))
    {
      i := i - 1;
      assert s0[i..nn] == [np[i]] + s0[i + 1..nn];
      ghost var qi: Limb;
      n1, qi := DivAdvance(qp, np, i, n1, dp, dinv, s0[i + 1..nn], nh, q);
      q := [qi] + q;
    }
    assert s0[0..nn] == s0[..nn];
  }

  // ---- mpn_div_qr_1_preinv ----

  method StoreLimb(qp: array?<Limb>, i: nat, q: Limb, ghost qs: seq<Limb>)
    requires HasRoom(qp, i + 1 + |qs|) && Stores(qp, i + 1, qs)
    modifies qp
    ensures Stores(qp, i, [q] + qs)
    ensures qp != null ==> qp[..] == old(qp[..])[i := q]
  {
    if qp != null {
      qp[i] := q;
      assert qp[i..i + 1 + |qs|] == [q] + qs;
    }
  }

  method DivLoop1(qp: array?<Limb>, np: array<Limb>, nn: nat, nh: Limb, d: Limb, di: Limb)
    returns (r: Limb, ghost q: seq<Limb>)
    requires nn <= np.Length && HasRoom(qp, nn)
    requires BASE / 2 <= d && nh < d && IsInverse2by1(BASE, d, di)
    modifies qp
    ensures |q| == nn && Stores(qp, 0, q) && (qp != null ==> qp[nn..] == old(qp[nn..]))
    ensures Divides(old(np[..nn]), nh, q, d, r)
  {
    ghost var s0 := np[..];
    r, q := nh, [];
    var i := nn;
    DivStart(s0[nn..nn], nh, d);
    while i > 0
      invariant 0 <= i <= nn && np[..i] == s0[..i]
      invariant |q| == nn - i && Stores(qp, i, q) && (qp != null ==> qp[nn..] == old(qp[nn..]))
      invariant Divides(s0[i..nn], nh, q, d, r)
    {
      i := i - 1;
      var x: Limb := np[i];
      assert s0[i..nn] == [x] + s0[i + 1..nn];
      var qi, r' := DivLimb1(x, d, di, r, s0[i + 1..nn], nh, q);
      StoreLimb(qp, i, qi, q);
      r, q := r', [qi] + q;
    }
    assert s0[0..nn] == s0[..nn];
  }

  method DivLimb1(x: Limb, d: Limb, di: Limb, r: Limb, ghost s: seq<Limb>, ghost nh: Limb, ghost qs: seq<Limb>)
    returns (q: Limb, r': Limb)
    requires BASE / 2 <= d && IsInverse2by1(BASE, d, di) && Divides(s, nh, qs, d, r)
    ensures Divides([x] + s, nh, [q] + qs, d, r')
  {
    var (q1, r1) := UdivQrnndPreinv(r, x, d, di);
    DivRound(x, s, nh, qs, d, r, q1, r1);
    q, r' := q1, r1;
  }

  /** Shifting numerator and divisor alike shifts only the remainder. */
  lemma Unshift(n: nat, q: nat, d: nat, f: nat, r: nat)
    requires f > 0 && f * n == q * (f * d) + r && r < f * d
    ensures r % f == 0 && n == q * d + r / f && r / f < d
  {
    var e := n - q * d;
    assert r == e * f + 0 by { assert f * n - q * (f * d) == f * (n - q * d); }
    DivModUnique(r, f, e, 0);
    CancelLt(f, e, d);
  }

  lemma ShiftBelowHalf(shift: nat)
    requires shift < 64
    ensures ShiftBy(shift) <= BASE / 2
  {
    PowMono(2, shift, 63);
    assert Pow(2, 64) == 2 * Pow(2, 63);
    Invert3by2.LimbPower();
  }

  /** Divides the shifted numerator, through a scratch copy when there is a shift. */
  method DivShifted1(qp: array?<Limb>, np: array<Limb>, nn: nat, inv: DivInverse)
    returns (r: Limb, ghost q: seq<Limb>)
    requires 1 <= nn <= np.Length && HasRoom(qp, nn) && inv.shift < 64
    requires BASE / 2 <= inv.d1 && IsInverse2by1(BASE, inv.d1, inv.di)
    modifies qp
    ensures |q| == nn && Stores(qp, 0, q) && (qp != null ==> qp[nn..] == old(qp[nn..]))
    ensures ShiftBy(inv.shift) * V(old(np[..nn])) == V(q) * inv.d1 + r && r < inv.d1
  {
    var f, g := ShiftBy(inv.shift), ShiftRest(inv.shift);
    ShiftIsFactors(inv.shift);
    ShiftBelowHalf(inv.shift);
    if inv.shift > 0 {
      var tp := new Limb[nn];
      r := LShift(tp, np, nn, f, g);
      r, q := DivLoop1(qp, tp, nn, r, inv.d1, inv.di);
    } else {
      r, q := DivLoop1(qp, np, nn, 0, inv.d1, inv.di);
    }
  }

  method DivQr1Preinv(qp: array?<Limb>, np: array<Limb>, nn: nat, inv: DivInverse, ghost d: Limb)
    returns (r: Limb, ghost q: seq<Limb>)
    requires 1 <= nn <= np.Length && HasRoom(qp, nn) && IsInverseOf(inv, [d])
    modifies qp
    ensures |q| == nn && Stores(qp, 0, q) && (qp != null ==> qp[nn..] == old(qp[nn..]))
    ensures V(old(np[..nn])) == V(q) * d + r && r < d
  {
    ghost var n := V(np[..nn]);
    ValOne(BASE, d);
    r, q := DivShifted1(qp, np, nn, inv);
    ShiftIsFactors(inv.shift);
    Unshift(n, V(q), d, ShiftBy(inv.shift), r);
    DivSmaller(r, ShiftBy(inv.shift));
    r := r / ShiftBy(inv.shift);
  }

  lemma DivSmaller(r: Limb, f: nat)
    requires f > 0
    ensures 0 <= r / f < BASE
  {
    MulLe(r / f, 1, f);
  }

  // ---- mpn_div_qr_2_preinv ----

  method DivLimb2(x: Limb, d1: Limb, d0: Limb, di: Limb, r1: Limb, r0: Limb,
                  ghost s: seq<Limb>, ghost nh: Limb, ghost qs: seq<Limb>)
    returns (q: Limb, r1': Limb, r0': Limb)
    requires BASE / 2 <= d1 && IsInverse3by2(BASE, Two(d1, d0), di)
    requires Divides(s, nh, qs, Two(d1, d0), Two(r1, r0))
    ensures Divides([x] + s, nh, [q] + qs, Two(d1, d0), Two(r1', r0'))
  {
    var (q2, m1, m0) := UdivQr3by2(r1, r0, x, d1, d0, di);
    DivRound(x, s, nh, qs, Two(d1, d0), Two(r1, r0), q2, Two(m1, m0));
    q, r1', r0' := q2, m1, m0;
  }

  method DivLoop2(qp: array?<Limb>, np: array<Limb>, nn: nat, nh: Limb, d1: Limb, d0: Limb, di: Limb)
    returns (r1: Limb, r0: Limb, ghost q: seq<Limb>)
    requires qp != np && 2 <= nn <= np.Length && HasRoom(qp, nn - 1)
    requires BASE / 2 <= d1 && nh < d1 && IsInverse3by2(BASE, Two(d1, d0), di)
    modifies qp
    ensures |q| == nn - 1 && Stores(qp, 0, q) && (qp != null ==> qp[nn - 1..] == old(qp[nn - 1..]))
    ensures Divides(np[..nn], nh, q, Two(d1, d0), Two(r1, r0))
  {
    r1, r0, q := nh, np[nn - 1], [];
    var i := nn - 1;
    assert np[i..nn] == [r0];
    ValOne(BASE, r0);
    assert Pow(BASE, 1) == BASE * Pow(BASE, 0);
    assert Divides(np[i..nn], nh, q, Two(d1, d0), Two(r1, r0));
    while i > 0
      invariant 0 <= i <= nn - 1 && |q| == nn - 1 - i && Stores(qp, i, q)
      invariant qp != null ==> qp[nn - 1..] == old(qp[nn - 1..])
      invariant Divides(np[i..nn], nh, q, Two(d1, d0), Two(r1, r0))
    {
      i := i - 1;
      var x: Limb := np[i];
      assert np[i..nn] == [x] + np[i + 1..nn];
      var qi, m1, m0 := DivLimb2(x, d1, d0, di, r1, r0, np[i + 1..nn], nh, q);
      StoreLimb(qp, i, qi, q);
      r1, r0, q := m1, m0, [qi] + q;
    }
    assert np[0..nn] == np[..nn];
  }

  method DivShifted2(qp: array?<Limb>, np: array<Limb>, nn: nat, inv: DivInverse)
    returns (r1: Limb, r0: Limb, ghost q: seq<Limb>)
    requires qp != np && 2 <= nn <= np.Length && HasRoom(qp, nn - 1) && inv.shift < 64
    requires BASE / 2 <= inv.d1 && IsInverse3by2(BASE, Two(inv.d1, inv.d0), inv.di)
    modifies qp
    ensures |q| == nn - 1 && Stores(qp, 0, q) && (qp != null ==> qp[nn - 1..] == old(qp[nn - 1..]))
    ensures ShiftBy(inv.shift) * V(np[..nn]) == V(q) * Two(inv.d1, inv.d0) + Two(r1, r0)
    ensures Two(r1, r0) < Two(inv.d1, inv.d0)
  {
    var f, g := ShiftBy(inv.shift), ShiftRest(inv.shift);
    ShiftIsFactors(inv.shift);
    ShiftBelowHalf(inv.shift);
    if inv.shift > 0 {
      var tp := new Limb[nn];
      r1 := LShift(tp, np, nn, f, g);
      r1, r0, q := DivLoop2(qp, tp, nn, r1, inv.d1, inv.d0, inv.di);
    } else {
      r1, r0, q := DivLoop2(qp, np, nn, 0, inv.d1, inv.d0, inv.di);
    }
  }

  method DivQr2Preinv(qp: array?<Limb>, np: array<Limb>, nn: nat, inv: DivInverse, ghost dp: seq<Limb>)
    returns (ghost q: seq<Limb>)
    requires qp != np && 2 <= nn <= np.Length && HasRoom(qp, nn - 1)
    requires |dp| == 2 && IsInverseOf(inv, dp)
    modifies qp, np
    ensures |q| == nn - 1 && Stores(qp, 0, q) && np[2..] == old(np[2..])
    ensures qp != null ==> qp[nn - 1..] == old(qp[nn - 1..])
    ensures V(old(np[..nn])) == V(q) * V(dp) + V(np[..2]) && V(np[..2]) < V(dp)
  {
    ghost var n := V(np[..nn]);
    var r1, r0: Limb;
    r1, r0, q := DivShifted2(qp, np, nn, inv);
    var f, g := ShiftBy(inv.shift), ShiftRest(inv.shift);
    ShiftIsFactors(inv.shift);
    FinishTwo(n, V(q), V(dp), f, g, r1, r0);
    np[1] := r1 / f;
    np[0] := r0 / f + LowBits(r1, g, f);
    assert np[..2] == [np[0], np[1]];
    ValTwo(np[0], np[1]);
  }

  lemma ValTwo(l: Limb, h: Limb)
    ensures V([l, h]) == Two(h, l)
  {
    SplitTop([l, h]);
  }

  lemma FinishTwo(n: nat, q: nat, d: nat, f: nat, g: nat, r1: Limb, r0: Limb)
    requires ShiftFactors(f, g) && f * n == q * (f * d) + Two(r1, r0) && Two(r1, r0) < f * d
    ensures 0 <= r1 / f < BASE && 0 <= r0 / f + LowBits(r1, g, f) < BASE
    ensures var r := Two(r1 / f, r0 / f + LowBits(r1, g, f)); n == q * d + r && r < d
  {
    Unshift(n, q, d, f, Two(r1, r0));
    UnshiftTwo(r1, r0, f, g);
    DivSmaller(r1, f);
    DivSmaller(r0, f);
  }

  lemma UnshiftTwo(r1: Limb, r0: Limb, f: nat, g: nat)
    requires ShiftFactors(f, g)
    ensures r1 / f < BASE && r0 / f + LowBits(r1, g, f) < BASE
    ensures Two(r1, r0) / f == Two(r1 / f, r0 / f + LowBits(r1, g, f))
  {
    ShiftedFits(r1, g, f);
    ShiftedFits(r0, g, f);
    DivSmaller(r1, f);
    var e := Two(r1 / f, r0 / f + LowBits(r1, g, f));
    assert Two(r1, r0) == e * f + r0 % f by { UnshiftStep(r1, r0, r0 / f, r0 % f, r1 / f, LowBits(r1, g, f), f, g); }
    DivModUnique(Two(r1, r0), f, e, r0 % f);
  }

  lemma UnshiftStep(r1: int, r0: int, l: int, m: int, h: int, c: int, f: nat, g: nat)
    requires f * g == BASE && g * r1 == c + BASE * h && r0 == f * l + m
    ensures r1 * BASE + r0 == (h * BASE + (l + c)) * f + m
  {
    assert f * (g * r1) == r1 * BASE;
  }

  // ---- mpn_div_qr_preinv and mpn_div_qr ----

  /** The top of the shifted numerator is below the normalised divisor. */
  lemma TopBelow(s: seq<Limb>, nh: Limb, dps: seq<Limb>)
    requires |dps| == |s| + 1 && nh < dps[|s|]
    ensures Partial(s, nh) < V(dps)
  {
    ValBound(BASE, s);
    MulLe(Pow(BASE, |s|), nh + 1, dps[|s|]);
  }

  /** Division by three limbs and more, in place; `dps` is the shifted divisor. */
  method DivQrPreinv(qp: array?<Limb>, np: array<Limb>, nn: nat, dps: seq<Limb>, inv: DivInverse, ghost d: nat)
    returns (ghost q: seq<Limb>)
    requires qp != np && 2 < |dps| <= nn <= np.Length && HasRoom(qp, nn - |dps| + 1) && inv.shift < 64
    requires V(dps) == ShiftBy(inv.shift) * d
    requires inv.d1 == dps[|dps| - 1] && inv.d0 == dps[|dps| - 2] && BASE / 2 <= inv.d1
    requires IsInverse3by2(BASE, Two(inv.d1, inv.d0), inv.di)
    modifies qp, np
    ensures |q| == nn - |dps| + 1 && Stores(qp, 0, q) && np[nn..] == old(np[nn..])
    ensures qp != null ==> qp[nn - |dps| + 1..] == old(qp[nn - |dps| + 1..])
    ensures V(old(np[..nn])) == V(q) * d + V(np[..|dps|]) && V(np[..|dps|]) < d
  {
    hide Val, Pow, ShiftBy, ShiftRest, IsInverse3by2;
    var f, g := ShiftBy(inv.shift), ShiftRest(inv.shift);
    ShiftIsFactors(inv.shift);
    ShiftBelowHalf(inv.shift);
    ghost var n, dn := V(np[..nn]), |dps|;
    var nh: Limb := 0;
    if inv.shift > 0 {
      nh := LShift(np, np, nn, f, g);
    } else {
      ShiftByZero();
    }
    TopBelow(np[nn - dn + 1..nn], nh, dps);
    assert Partial(np[..nn], nh) == f * n;
    q := DivQrPi1(qp, np, nn, nh, dps, inv.di);
    ghost var r := V(np[..dn]);
    Unshift(n, V(q), d, f, r);
    if inv.shift > 0 {
      var out := RShift(np, |dps|, f, g);
      ShiftedExactly(V(np[..dn]), r, f, r - f * V(np[..dn]));
    }
  }

  lemma ShiftByZero()
    ensures ShiftBy(0) == 1
  {
  }

  /** A multiple of f loses no bits when shifted right. */
  lemma ShiftedExactly(v: nat, r: nat, f: nat, out: int)
    requires f > 0 && r % f == 0 && f * v + out == r && 0 <= out < f
    ensures v == r / f
  {
    DivModUnique(r, f, v, out);
  }

  /**
    * The remainder replaces n, for any divisor whose top limb is not zero; the quotient
    * goes into qp when there is one: n = q d + r with 0 <= r < d.
    */
  method DivQr(qp: array?<Limb>, np: array<Limb>, nn: nat, dp: array<Limb>, dn: nat)
    requires qp != np && qp != dp && np != dp
    requires 1 <= dn <= dp.Length && dn <= nn <= np.Length && HasRoom(qp, nn - dn + 1)
    requires dp[dn - 1] > 0
    modifies qp, np
    ensures V(np[..dn]) < V(dp[..dn]) && V(np[..dn]) == V(old(np[..nn])) % V(dp[..dn])
    ensures qp != null ==> V(old(np[..nn])) == V(qp[..nn - dn + 1]) * V(dp[..dn]) + V(np[..dn])
    ensures np[nn..] == old(np[nn..]) && (qp != null ==> qp[nn - dn + 1..] == old(qp[nn - dn + 1..]))
  {
    hide Val, Pow, IsInverseOf;
    ghost var n := V(np[..nn]);
    var inv := DivQrInvert(dp[..dn]);
    ghost var q;
    if dn == 1 {
      assert dp[..1] == [dp[0]];
      ValOne(BASE, dp[0]);
      var r: Limb;
      r, q := DivQr1Preinv(qp, np, nn, inv, dp[0]);
      np[0] := r;
      assert np[..1] == [np[0]];
      ValOne(BASE, np[0]);
    } else if dn == 2 {
      q := DivQr2Preinv(qp, np, nn, inv, dp[..2]);
    } else {
      var dps := ShiftDivisor(dp, dn, inv);
      q := DivQrPreinv(qp, np, nn, dps, inv, V(dp[..dn]));
    }
    DivModUnique(n, V(dp[..dn]), V(q), V(np[..dn]));
    assert qp != null ==> qp[0..nn - dn + 1] == qp[..nn - dn + 1];
  }

  method ShiftDivisor(dp: array<Limb>, dn: nat, inv: DivInverse) returns (dps: seq<Limb>)
    requires 2 < dn <= dp.Length && IsInverseOf(inv, dp[..dn])
    ensures |dps| == dn && V(dps) == ShiftBy(inv.shift) * V(dp[..dn])
    ensures dps[dn - 1] == inv.d1 && dps[dn - 2] == inv.d0
  {
    dps := dp[..dn];
    if inv.shift > 0 {
      var tp := new Limb[dn];
      ShiftIsFactors(inv.shift);
      ghost var cy := LShift(tp, dp, dn, ShiftBy(inv.shift), ShiftRest(inv.shift));
      dps := tp[..dn];
      NoCarry(V(dps), cy, Two(inv.d1, inv.d0), Pow(BASE, dn), Pow(BASE, dn - 2), ShiftBy(inv.shift) * V(dp[..dn]));
    }
    TopLimbs(dps, inv);
  }

  lemma NoCarry(v: nat, cy: nat, dd: nat, p: nat, p2: nat, w: nat)
    requires p == BASE_SQUARED * p2 && dd < BASE_SQUARED && v + cy * p == w && w < dd * p2 + p2
    ensures cy == 0
  {
    MulLe(p2, dd + 1, BASE_SQUARED);
    if cy > 0 {
      MulLe(p, 1, cy);
    }
  }

  lemma TopLimbs(dps: seq<Limb>, inv: DivInverse)
    requires |dps| > 2 && HasTop(V(dps), Two(inv.d1, inv.d0), Pow(BASE, |dps| - 2))
    ensures dps[|dps| - 1] == inv.d1 && dps[|dps| - 2] == inv.d0
  {
    var n := |dps|;
    var p, h := Pow(BASE, n - 2), Two(dps[n - 1], dps[n - 2]);
    SplitTop(dps);
    ValBound(BASE, dps[..n - 2]);
    DivModUnique(V(dps), p, h, V(dps[..n - 2]));
    DivModUnique(V(dps), p, Two(inv.d1, inv.d0), V(dps) - Two(inv.d1, inv.d0) * p);
    TwoInjective(dps[n - 1], dps[n - 2], inv.d1, inv.d0);
  }
}
