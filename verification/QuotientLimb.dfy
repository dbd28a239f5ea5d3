/** One quotient limb of schoolbook division: estimate, multiply-and-subtract, add-back. */
module QuotientLimb {
  import opened Arith
  import opened Numerals
  import opened ReciprocalDivision
  import opened Limbs
  import opened LimbArrays

  // ---- one quotient limb of mpn_div_qr_pi1 ----

  /** The partial remainder: the limbs `s` with `n1` on top. */
  ghost function Partial(s: seq<Limb>, n1: Limb): nat {
    V(s) + n1 * Pow(BASE, |s|)
  }

  /** The top two limbs of a partial remainder below the divisor. */
  lemma TopTwo(r: seq<Limb>, n1: Limb, dp: seq<Limb>)
    requires |dp| >= 2 && |r| == |dp| - 1 && Partial(r, n1) < V(dp)
    ensures var n := |dp|; Two(n1, r[n - 2]) <= Two(dp[n - 1], dp[n - 2])
  {
    hide Val, Pow, Two;
    var n := |dp|;
    SplitTop(dp);
    SplitTop(r + [n1]);
    ValSnoc(BASE, r, n1);
    ValBound(BASE, dp[..n - 2]);
    TopTwoStep(V((r + [n1])[..n - 2]), Two(n1, r[n - 2]), V(dp[..n - 2]), Two(dp[n - 1], dp[n - 2]), Pow(BASE, n - 2));
  }

  lemma TopTwoStep(v: nat, m: nat, w: nat, d: nat, p: nat)
    requires v + m * p < w + d * p && w < p
    ensures m <= d
  {
    assert p * m < p * (d + 1);
    CancelLt(p, m, d + 1);
  }

  /** A number of at least two limbs, with the top two set apart. */
  lemma SplitTop(s: seq<Limb>)
    requires |s| >= 2
    ensures var n := |s|;
      V(s) == V(s[..n - 2]) + Two(s[n - 1], s[n - 2]) * Pow(BASE, n - 2)
  {
    var n := |s|;
    assert s == s[..n - 2] + [s[n - 2]] + [s[n - 1]];
    ValSnoc(BASE, s[..n - 2], s[n - 2]);
    ValSnoc(BASE, s[..n - 2] + [s[n - 2]], s[n - 1]);
    SplitTopStep(s[n - 1], s[n - 2], Pow(BASE, n - 2));
  }

  lemma SplitTopStep(h: int, l: int, p: int)
    ensures l * p + h * (BASE * p) == (h * BASE + l) * p
  {
  }

  /** The quotient limb b - 1, when the top limbs of remainder and divisor agree. */
  lemma MaxQuotient(d: nat, dd: nat, dl: nat, r: nat, rl: nat, x: Limb, p: nat)
    requires p > 0 && d == dl + dd * p && dl < p && BASE_SQUARED / 2 <= dd
    requires r == rl + dd * p && r < d
    ensures 0 <= x + BASE * r - (BASE - 1) * d < d
  {
    MulLe(BASE, r + 1, d);
    assert (BASE - 1) * d == BASE * d - d;
    MulLe(p, BASE - 1, dd);
    assert x + BASE * r - (BASE - 1) * d >= BASE * (dd * p) - (BASE - 1) * (dl + dd * p);
    assert BASE * (dd * p) - (BASE - 1) * (dl + dd * p) == dd * p - (BASE - 1) * dl;
    MulLe(BASE - 1, dl, p);
  }

  /** Numbers below p that differ by a multiple of p are equal. */
  lemma SameBelow(a: int, b: int, k: int, p: nat)
    requires 0 <= a < p && 0 <= b < p && a == b + k * p
    ensures a == b && k == 0
  {
    if k >= 1 {
      MulLe(p, 1, k);
    } else if k <= -1 {
      MulLe(p, k, -1);
    }
  }

  method DivStepMax(np: array<Limb>, i: nat, n1: Limb, dp: seq<Limb>) returns (n1': Limb)
    requires |dp| > 2 && i + |dp| <= np.Length && dp[|dp| - 1] >= BASE / 2
    requires n1 == dp[|dp| - 1] && np[i + |dp| - 1] == dp[|dp| - 2]
    requires Partial(np[i + 1..i + |dp|], n1) < V(dp)
    modifies np
    ensures np[..i] == old(np[..i]) && np[i + |dp|..] == old(np[i + |dp|..])
    ensures (BASE - 1) * V(dp) + Partial(np[i..i + |dp| - 1], n1') == old(Partial(np[i..i + |dp|], n1))
    ensures Partial(np[i..i + |dp| - 1], n1') < V(dp)
  {
    ghost var n, s0 := |dp|, np[i..i + |dp|];
    MaxBounds(s0, n1, dp);
    var cy := SubMul1(np, i, dp, BASE - 1);
    n1' := np[i + |dp| - 1];
    ghost var s := np[i..i + n];
    assert s == np[i..i + n - 1] + [n1'];
    ValSnoc(BASE, np[i..i + n - 1], n1');
    ValBound(BASE, s);
    ValBound(BASE, dp);
    MaxResult(V(s), V(s0), V(dp), n1, cy, Pow(BASE, n));
  }

  lemma MaxBounds(s: seq<Limb>, n1: Limb, dp: seq<Limb>)
    requires |s| == |dp| > 2 && dp[|dp| - 1] >= BASE / 2
    requires n1 == dp[|dp| - 1] && s[|s| - 1] == dp[|dp| - 2] && Partial(s[1..], n1) < V(dp)
    ensures 0 <= Partial(s, n1) - (BASE - 1) * V(dp) < V(dp)
  {
    var n := |dp|;
    var r := s[1..] + [n1];
    PartialCons(s, n1);
    ValSnoc(BASE, s[1..], n1);
    SplitTop(dp);
    SplitTop(r);
    PowPos(BASE, n - 2);
    ValBound(BASE, dp[..n - 2]);
    MaxQuotient(V(dp), Two(dp[n - 1], dp[n - 2]), V(dp[..n - 2]), V(r), V(r[..n - 2]), s[0], Pow(BASE, n - 2));
  }

  /** Bringing down the next limb. */
  lemma PartialCons(s: seq<Limb>, n1: Limb)
    requires s != []
    ensures Partial(s, n1) == s[0] + BASE * Partial(s[1..], n1)
  {
    assert s == [s[0]] + s[1..];
    ValCons(BASE, s[0], s[1..]);
    PartialConsStep(n1, V(s[1..]), Pow(BASE, |s| - 1));
  }

  lemma PartialConsStep(n1: int, v: int, p: int)
    ensures BASE * v + n1 * (BASE * p) == BASE * (v + n1 * p)
  {
  }

  lemma MaxResult(v: nat, v0: nat, d: nat, n1: nat, cy: nat, p: nat)
    requires v + (BASE - 1) * d == v0 + cy * p && v < p && d < p
    requires 0 <= v0 + n1 * p - (BASE - 1) * d < d
    ensures v == v0 + n1 * p - (BASE - 1) * d
  {
    assert v == (v0 + n1 * p - (BASE - 1) * d) + (cy - n1) * p;
    SameBelow(v, v0 + n1 * p - (BASE - 1) * d, cy - n1, p);
  }

  /** One quotient limb by the 3/2 estimate; `borrow` says it came out one too big. */
  method DivEstimate(np: array<Limb>, i: nat, n1: Limb, dp: seq<Limb>, dinv: Limb)
    returns (q: Limb, n1': Limb, borrow: nat)
    requires |dp| > 2 && i + |dp| <= np.Length && dp[|dp| - 1] >= BASE / 2
    requires !(n1 == dp[|dp| - 1] && np[i + |dp| - 1] == dp[|dp| - 2])
    requires IsInverse3by2(BASE, Two(dp[|dp| - 1], dp[|dp| - 2]), dinv)
    requires Partial(np[i + 1..i + |dp|], n1) < V(dp)
    modifies np
    ensures np[..i] == old(np[..i]) && np[i + |dp|..] == old(np[i + |dp|..])
    ensures Estimated(old(np[i..i + |dp|]), n1, dp, q, np[i..i + |dp| - 1], n1', borrow)
  {
    hide Val, Pow, Partial, IsInverse3by2, IsSubMul, Digit3by2, Estimated;
    var n := |dp|;
    ghost var s0 := np[i..i + n];
    var r1: Limb, r0: Limb;
    q, r1, r0 := DivDigit(np, i, n1, dp, dinv);
    var cy := SubMul1(np, i, dp[..n - 2], q);
    ghost var low := np[i..i + (n - 2)];
    assert s0[..n - 2] == old(np[i..i + (n - 2)]);
    var (m1, m0, b) := SubBorrow(r1, r0, cy);
    n1', borrow := m1, b;
    np[i + n - 2] := m0;
    assert np[i..i + n - 1] == low + [m0];
    EstimateValue(s0, n1, dp, q, r1, r0, low, cy, m0, m1, b);
  }

  method DivDigit(np: array<Limb>, i: nat, n1: Limb, dp: seq<Limb>, dinv: Limb)
    returns (q: Limb, r1: Limb, r0: Limb)
    requires |dp| > 2 && i + |dp| <= np.Length && dp[|dp| - 1] >= BASE / 2
    requires !(n1 == dp[|dp| - 1] && np[i + |dp| - 1] == dp[|dp| - 2])
    requires IsInverse3by2(BASE, Two(dp[|dp| - 1], dp[|dp| - 2]), dinv)
    requires Partial(np[i + 1..i + |dp|], n1) < V(dp)
    ensures Digit3by2(np[i..i + |dp|], n1, dp, q, r1, r0)
  {
    hide Val, Pow, Partial, IsInverse3by2, Two, UdivQr3by2;
    var n := |dp|;
    TopTwo(np[i + 1..i + n], n1, dp);
    TopDiffers(n1, np[i + n - 1], dp[n - 1], dp[n - 2]);
    var (q3, m1, m0) := UdivQr3by2(n1, np[i + n - 1], np[i + n - 2], dp[n - 1], dp[n - 2], dinv);
    q, r1, r0 := q3, m1, m0;
  }

  lemma TopDiffers(n1: Limb, n0: Limb, d1: Limb, d0: Limb)
    requires Two(n1, n0) <= Two(d1, d0) && !(n1 == d1 && n0 == d0)
    ensures Two(n1, n0) < Two(d1, d0)
  {
  }

  /** `q` and (r1, r0) divide the top three limbs by the divisor's top two. */
  ghost predicate Digit3by2(s0: seq<Limb>, n1: Limb, dp: seq<Limb>, q: Limb, r1: Limb, r0: Limb)
    requires |s0| == |dp| > 2
  {
    var n := |dp|;
    var dd := Two(dp[n - 1], dp[n - 2]);
    q * dd + Two(r1, r0) == n1 * BASE_SQUARED + Two(s0[n - 1], s0[n - 2]) && Two(r1, r0) < dd
  }

  /** A borrow of one limb from two, with the borrow out. */
  function SubBorrow(r1: Limb, r0: Limb, cy: Limb): (res: (Limb, Limb, nat))
    ensures res.2 <= 1 && Two(res.0, res.1) == Two(r1, r0) - cy + res.2 * BASE_SQUARED
  {
    var cy1 := if r0 < cy then 1 else 0;
    (SubLimb(r1, cy1), SubLimb(r0, cy), if r1 < cy1 then 1 else 0)
  }

  /** The limbs hold the remainder for `q`, or that plus one wrap when it is negative. */
  ghost predicate Estimated(s0: seq<Limb>, n1: Limb, dp: seq<Limb>, q: Limb, s: seq<Limb>, n1': Limb, borrow: nat) {
    var t := Partial(s0, n1) - q * V(dp);
    && borrow <= 1
    && Partial(s, n1') == t + borrow * Pow(BASE, |dp|)
    && 0 - V(dp) <= t < V(dp)
    && (borrow == 1 ==> t < 0 && q > 0)
  }

  method DivStepEstimate(np: array<Limb>, i: nat, n1: Limb, dp: seq<Limb>, dinv: Limb)
    returns (q: Limb, n1': Limb)
    requires |dp| > 2 && i + |dp| <= np.Length && dp[|dp| - 1] >= BASE / 2
    requires !(n1 == dp[|dp| - 1] && np[i + |dp| - 1] == dp[|dp| - 2])
    requires IsInverse3by2(BASE, Two(dp[|dp| - 1], dp[|dp| - 2]), dinv)
    requires Partial(np[i + 1..i + |dp|], n1) < V(dp)
    modifies np
    ensures np[..i] == old(np[..i]) && np[i + |dp|..] == old(np[i + |dp|..])
    ensures q * V(dp) + Partial(np[i..i + |dp| - 1], n1') == old(Partial(np[i..i + |dp|], n1))
    ensures Partial(np[i..i + |dp| - 1], n1') < V(dp)
  {
    var n := |dp|;
    var borrow: nat;
    q, n1', borrow := DivEstimate(np, i, n1, dp, dinv);
    if borrow != 0 {
      ghost var s1 := np[i..i + (n - 1)];
      var c := AddN(np, i, dp[..n - 1]);
      ghost var t := old(Partial(np[i..i + |dp|], n1)) - q * V(dp);
      AddBackValue(s1, n1', np[i..i + (n - 1)], c, dp, t);
      n1' := AddLimb(n1', AddLimb(dp[n - 1], c));
      assert (q - 1) * V(dp) == q * V(dp) - V(dp);
      q := q - 1;
    }
  }

  /** A partial remainder with its top three limbs set apart. */
  lemma PartialTop(s: seq<Limb>, n1: Limb)
    requires |s| >= 2
    ensures var n := |s|;
      Partial(s, n1) == V(s[..n - 2]) + (n1 * BASE_SQUARED + Two(s[n - 1], s[n - 2])) * Pow(BASE, n - 2)
  {
    var n := |s|;
    SplitTop(s);
    PartialTopStep(n1, Two(s[n - 1], s[n - 2]), Pow(BASE, n - 2));
  }

  lemma PartialTopStep(h: int, m: int, p: int)
    ensures m * p + h * (BASE * (BASE * p)) == (h * BASE_SQUARED + m) * p
  {
  }

  lemma EstimateValue(s0: seq<Limb>, n1: Limb, dp: seq<Limb>, q: Limb, r1: Limb, r0: Limb,
                      low: seq<Limb>, cy: Limb, n0: Limb, n1': Limb, borrow: nat)
    requires |s0| == |dp| > 2 && |low| == |dp| - 2 && dp[|dp| - 1] >= BASE / 2
    requires Digit3by2(s0, n1, dp, q, r1, r0)
    requires IsSubMul(low, s0[..|dp| - 2], dp[..|dp| - 2], q, cy)
    requires borrow <= 1 && Two(n1', n0) == Two(r1, r0) - cy + borrow * BASE_SQUARED
    ensures Estimated(s0, n1, dp, q, low + [n0], n1', borrow)
  {
    var n := |dp|;
    var p := Pow(BASE, n - 2);
    PartialTop(s0, n1);
    SplitTop(dp);
    LowTop(low, n0, n1');
    ValBound(BASE, low);
    ValBound(BASE, dp[..n - 2]);
    EstimateStep(n1 * BASE_SQUARED + Two(s0[n - 1], s0[n - 2]), V(s0[..n - 2]), Two(dp[n - 1], dp[n - 2]),
      V(dp[..n - 2]),
                 q, Two(r1, r0), V(low), cy, borrow, p);
    assert Pow(BASE, n) == BASE * Pow(BASE, n - 1) && Pow(BASE, n - 1) == BASE * p;
  }

  lemma LowTop(low: seq<Limb>, n0: Limb, n1: Limb)
    ensures Partial(low + [n0], n1) == V(low) + Two(n1, n0) * Pow(BASE, |low|)
  {
    hide Val, Pow;
    ValSnoc(BASE, low, n0);
    PowStep(BASE, |low|);
    SplitTopStep(n1, n0, Pow(BASE, |low|));
  }

  lemma EstimateStep(m: nat, s: nat, dd: nat, dl: nat, q: nat, r: nat, low: nat, cy: nat, borrow: nat, p: nat)
    requires q * dd + r == m && r < dd && BASE_SQUARED / 2 <= dd
    requires low + q * dl == s + cy * p && low < p && dl < p
    requires q < BASE && borrow <= 1 && 0 <= r - cy + borrow * BASE_SQUARED < BASE_SQUARED
    ensures var t := s + m * p - q * (dl + dd * p);
      && low + (r - cy + borrow * BASE_SQUARED) * p == t + borrow * (BASE_SQUARED * p)
      && 0 - (dl + dd * p) <= t < dl + dd * p && (borrow == 1 ==> t < 0 && q > 0)
  {
    var t := s + m * p - q * (dl + dd * p);
    assert t == low + (r - cy) * p by {
      assert (q * dd + r) * p == m * p;
    }
    MulLe(p, r - cy + 1, dd);
    MulPos(p, dd);
    EstimateLow(dd, dl, q, r, low, cy, p, s);
    if borrow == 1 {
      MulLe(p, r - cy, -1);
    }
  }

  lemma EstimateLow(dd: nat, dl: nat, q: nat, r: nat, low: nat, cy: nat, p: nat, s: nat)
    requires low + q * dl == s + cy * p && low < p && dl < p && BASE_SQUARED / 2 <= dd && q < BASE
    ensures 0 - (dl + dd * p) <= low + (r - cy) * p
    ensures r < cy ==> q > 0
  {
    MulLe(q, dl, p);
    MulLe(p, q, BASE);
    MulLe(p, BASE, dd);
    MulPos(r, p);
    assert (r - cy) * p == r * p - cy * p;
    if q == 0 && r < cy {
      MulLe(p, 1, cy);
    }
  }

  /** Adding the divisor back cancels the wrap. */
  lemma AddBackValue(s1: seq<Limb>, n1: Limb, s2: seq<Limb>, c: nat, dp: seq<Limb>, t: int)
    requires |s1| == |s2| == |dp| - 1 && c <= 1
    requires Partial(s1, n1) == t + Pow(BASE, |dp|) && 0 - V(dp) <= t < 0
    requires IsSum(s2, s1, dp[..|dp| - 1], c)
    ensures Partial(s2, AddLimb(n1, AddLimb(dp[|dp| - 1], c))) == t + V(dp)
  {
    var n := |dp|;
    var d1, p := dp[n - 1], Pow(BASE, n - 1);
    var m: Limb := AddLimb(n1, AddLimb(d1, c));
    var k := AddBackLimb(n1, d1, c);
    ValSnoc(BASE, s2, m);
    ValBound(BASE, s2 + [m]);
    ValBound(BASE, dp);
    AddBackStep(n1, d1, c, k, p);
    assert Partial(s2, m) == t + V(dp) + (1 - k) * (BASE * p);
    SameBelow(Partial(s2, m), t + V(dp), 1 - k, BASE * p);
  }

  lemma AddBackLimb(n1: Limb, d1: Limb, c: nat) returns (k: nat)
    requires c <= 1
    ensures AddLimb(n1, AddLimb(d1, c)) == n1 + d1 + c - k * BASE
  {
    k := (if d1 + c >= BASE then 1 else 0) + if n1 + AddLimb(d1, c) >= BASE then 1 else 0;
  }

  lemma AddBackStep(n1: int, d1: int, c: int, k: int, p: int)
    ensures (n1 + d1 + c - k * BASE) * p == n1 * p + d1 * p + c * p - k * (BASE * p)
  {
  }
}
