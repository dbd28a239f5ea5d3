/** Normalising a divisor and computing the reciprocal of its top limbs, for divisors of one
    limb, of two, and of more. */
module DivisorInverse {
  import opened Arith
  import opened Numerals
  import opened ReciprocalDivision
  import opened Limbs
  import opened Invert3by2
  import opened LimbArrays
  import opened QuotientLimb

  /** struct gmp_div_inverse: the shift, the normalised top limbs, their reciprocal. */
  datatype DivInverse = DivInverse(shift: nat, d1: Limb, d0: Limb, di: Limb)

  function ShiftBy(shift: nat): nat { Pow(2, shift) }

  function ShiftRest(shift: nat): nat
    requires shift <= 64
  {
    Pow(2, 64 - shift)
  }

  lemma ShiftIsFactors(shift: nat)
    requires shift <= 64
    ensures ShiftFactors(ShiftBy(shift), ShiftRest(shift))
  {
    PowPos(2, shift);
    PowPos(2, 64 - shift);
    PowAdd(2, shift, 64 - shift);
    LimbPower();
  }

  /** What mpn_div_qr_invert has computed, for a divisor of one limb and of more. */
  ghost predicate IsInverseOf(inv: DivInverse, dp: seq<Limb>) {
    && dp != [] && inv.shift < 64 && BASE / 2 <= inv.d1
    && var v := ShiftBy(inv.shift) * V(dp);
    if |dp| == 1 then
      v == inv.d1 && IsInverse2by1(BASE, inv.d1, inv.di)
    else
      HasTop(v, Two(inv.d1, inv.d0), Pow(BASE, |dp| - 2)) && IsInverse3by2(BASE, Two(inv.d1, inv.d0), inv.di)
  }

  /** `d` is what stands in `v` above its digits below the power `p`. */
  ghost predicate HasTop(v: int, d: int, p: int) {
    d * p <= v < d * p + p
  }

  // ---- gmp_clz ----

  lemma ShiftStart(x: nat)
    ensures x * ShiftBy(0) == x
  {
  }

  lemma ShiftFurther(x: nat, c: nat)
    ensures x * ShiftBy(c + 1) == 2 * (x * ShiftBy(c)) && x * ShiftBy(c + 8) == 256 * (x * ShiftBy(c))
  {
    hide Pow;
    PowStep(2, c);
    PowByte();
    PowAdd(2, c, 8);
    var p := ShiftBy(c);
    assert x * (2 * p) == 2 * (x * p) && x * (p * 256) == 256 * (x * p);
  }

  lemma ShiftTooFar(x: nat, c: nat)
    requires x > 0 && c >= 64
    ensures x * ShiftBy(c) >= BASE
  {
    LimbPower();
    PowMono(2, 64, c);
    MulLe(ShiftBy(c), 1, x);
  }

  method Clz(x: Limb) returns (c: nat)
    requires x > 0
    ensures c < 64 && BASE / 2 <= x * ShiftBy(c) < BASE
  {
    hide Pow, ShiftBy;
    var y: Limb := x;
    c := 0;
    ShiftStart(x);
    while y < 0x100_0000_0000_0000
      invariant 0 < y == x * ShiftBy(c)
      decreases BASE - y
    {
      ShiftFurther(x, c);
      y, c := y * 256, c + 8;
    }
    while y < BASE / 2
      invariant 0 < y == x * ShiftBy(c)
      decreases BASE - y
    {
      ShiftFurther(x, c);
      y, c := 2 * y, c + 1;
    }
    if c >= 64 {
      ShiftTooFar(x, c);
    }
  }

  // ---- shifting the top limbs ----

  lemma ShiftOne(d: Limb, f: nat, g: nat)
    requires ShiftFactors(f, g) && f * d < BASE
    ensures LowBits(d, f, g) == f * d && d / g == 0
  {
    ShiftedFits(d, f, g);
  }

  /** (h << cnt) | (l >> (64 - cnt)). */
  function ShiftIn(h: Limb, l: Limb, f: nat, g: nat): (r: Limb)
    requires ShiftFactors(f, g)
  {
    ShiftedFits(h, f, g);
    ShiftedFits(l, f, g);
    LowBits(h, f, g) + l / g
  }

  lemma ShiftTwo(d1: Limb, d0: Limb, f: nat, g: nat)
    requires ShiftFactors(f, g) && f * d1 < BASE
    ensures f * Two(d1, d0) == Two(ShiftIn(d1, d0, f, g), LowBits(d0, f, g))
    ensures f * d1 <= ShiftIn(d1, d0, f, g)
  {
    ShiftOne(d1, f, g);
    ShiftedFits(d0, f, g);
    ShiftedFits(d1, f, g);
    assert f * Two(d1, d0) == BASE * (f * d1) + f * d0;
  }

  lemma ShiftThree(d1: Limb, d0: Limb, d3: Limb, f: nat, g: nat, v: nat, p: nat)
    requires ShiftFactors(f, g) && f * d1 < BASE && v < p
    ensures HasTop(f * (v + (d3 + BASE * Two(d1, d0)) * p),
                   Two(ShiftIn(d1, d0, f, g), ShiftIn(d0, d3, f, g)), BASE * p)
    ensures f * d1 <= ShiftIn(d1, d0, f, g)
  {
    ShiftTwo(d1, d0, f, g);
    ShiftedFits(d3, f, g);
    ShiftThreeLow(f, v, LowBits(d3, f, g), p);
    var e := d3 / g;
    assert Two(ShiftIn(d1, d0, f, g), ShiftIn(d0, d3, f, g)) == f * Two(d1, d0) + e;
    ShiftThreeStep(f, v, d3, Two(d1, d0), LowBits(d3, f, g), e, p);
  }

  lemma ShiftThreeLow(f: nat, v: nat, l: nat, p: nat)
    requires f > 0 && l + f <= BASE && v < p
    ensures 0 <= f * v + l * p < BASE * p
  {
    MulPos(f, v);
    MulPos(l, p);
    MulLt(f, v, p);
    MulLe(p, l + f, BASE);
    assert p * (l + f) == l * p + f * p;
  }

  lemma ShiftThreeStep(f: int, v: int, d3: int, d: int, l: int, e: int, p: int)
    requires l + BASE * e == f * d3
    ensures f * (v + (d3 + BASE * d) * p) == f * v + l * p + (f * d + e) * (BASE * p)
  {
    assert f * ((d3 + BASE * d) * p) == (f * d3) * p + (f * d) * (BASE * p);
  }

  // ---- mpn_div_qr_1_invert, mpn_div_qr_2_invert, mpn_div_qr_invert ----

  method DivQr1Invert(d: Limb) returns (inv: DivInverse)
    requires d > 0
    ensures IsInverseOf(inv, [d])
  {
    var shift := Clz(d);
    ghost var f := ShiftBy(shift);
    ShiftIsFactors(shift);
    ShiftOne(d, f, ShiftRest(shift)) by { assert f * d == d * f; }
    var d1: Limb := LowBits(d, ShiftBy(shift), ShiftRest(shift));
    ValOne(BASE, d);
    inv := DivInverse(shift, d1, 0, InvertThreeByTwo(d1, 0));
  }

  method DivQrInvert(dp: seq<Limb>) returns (inv: DivInverse)
    requires dp != [] && dp[|dp| - 1] > 0
    ensures IsInverseOf(inv, dp)
  {
    var n := |dp|;
    if n == 1 {
      inv := DivQr1Invert(dp[0]);
      assert dp == [dp[0]];
    } else {
      var shift := Clz(dp[n - 1]);
      var f, g := ShiftBy(shift), ShiftRest(shift);
      ShiftIsFactors(shift);
      assert f * dp[n - 1] == dp[n - 1] * f;
      var d3: Limb := if n > 2 then dp[n - 3] else 0;
      ShiftTop(dp, f, g, d3);
      var d1: Limb, d0: Limb := dp[n - 1], dp[n - 2];
      if shift > 0 {
        d1, d0 := ShiftIn(d1, d0, f, g), ShiftIn(d0, d3, f, g);
      } else {
        NoShift(d1, d0);
        NoShift(d0, d3);
      }
      inv := DivInverse(shift, d1, d0, InvertThreeByTwo(d1, d0));
    }
  }

  lemma NoShift(h: Limb, l: Limb)
    ensures ShiftBy(0) == 1 && ShiftRest(0) == BASE
    ensures ShiftFactors(1, BASE) && ShiftIn(h, l, 1, BASE) == h
  {
    LimbPower();
  }

  /** The top limbs of a divisor of at least two limbs, after the shift. */
  lemma ShiftTop(dp: seq<Limb>, f: nat, g: nat, d3: Limb)
    requires |dp| >= 2 && ShiftFactors(f, g) && BASE / 2 <= f * dp[|dp| - 1] < BASE
    requires d3 == if |dp| > 2 then dp[|dp| - 3] else 0
    ensures var d1, d0 := ShiftIn(dp[|dp| - 1], dp[|dp| - 2], f, g), ShiftIn(dp[|dp| - 2], d3, f, g);
      BASE / 2 <= d1 && HasTop(f * V(dp), Two(d1, d0), Pow(BASE, |dp| - 2))
  {
    var n := |dp|;
    SplitTop(dp);
    if n == 2 {
      ShiftTwo(dp[1], dp[0], f, g);
      ShiftedFits(0, f, g);
    } else {
      var p := Pow(BASE, n - 3);
      ValBound(BASE, dp[..n - 3]);
      ShiftThree(dp[n - 1], dp[n - 2], d3, f, g, V(dp[..n - 3]), p);
      assert dp[..n - 2] == dp[..n - 3] + [d3];
      ValSnoc(BASE, dp[..n - 3], d3);
      assert Pow(BASE, n - 2) == BASE * p;
      ShiftTopJoin(V(dp[..n - 3]), d3, Two(dp[n - 1], dp[n - 2]), p);
    }
  }

  lemma ShiftTopJoin(v: int, d3: int, d: int, p: int)
    ensures v + d3 * p + d * (BASE * p) == v + (d3 + BASE * d) * p
  {
  }
}
