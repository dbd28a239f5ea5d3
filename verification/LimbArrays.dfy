/** The mpn_ routines that the division is made of: loops over limb arrays, each with an
    exact integer meaning. */
module LimbArrays {
  import opened Arith
  import opened Numerals
  import opened Limbs

  ghost function V(s: seq<Limb>): nat { Val(BASE, s) }

  // ---- mpn_submul_1 ----

  /** One round of the multiply-and-subtract loop. */
  function SubMulLimb(rl: Limb, ul: Limb, vl: Limb, cl: Limb): (res: (Limb, Limb))
    ensures res.0 + ul * vl + cl == rl + res.1 * BASE
  {
    var (hpl, lpl) := UmulPpmm(ul, vl);
    var s := AddLimb(lpl, cl);
    HalfProduct(BASE, ul, vl);
    var c := hpl + if s < cl then 1 else 0;
    var x := SubLimb(rl, s);
    (x, c + if x > rl then 1 else 0)
  }

  /** `a` is `a0` less `v` times `u`, and `c` is what was borrowed. */
  ghost predicate IsSubMul(a: seq<Limb>, a0: seq<Limb>, u: seq<Limb>, v: Limb, c: Limb) {
    V(a) + v * V(u) == V(a0) + c * Pow(BASE, |u|)
  }

  lemma SubMulRound(a: seq<Limb>, a0: seq<Limb>, u: seq<Limb>, v: Limb, c: Limb,
                    x: Limb, rl: Limb, ul: Limb, c': Limb)
    requires |a| == |a0| == |u| && IsSubMul(a, a0, u, v, c)
    requires x + ul * v + c == rl + c' * BASE
    ensures IsSubMul(a + [x], a0 + [rl], u + [ul], v, c')
  {
    ValSnoc(BASE, a, x);
    ValSnoc(BASE, a0, rl);
    ValSnoc(BASE, u, ul);
    SubMulStep(V(u), v, Pow(BASE, |u|), x, rl, ul, c, c');
  }

  lemma SubMulStep(u: int, v: int, p: int, x: int, rl: int, ul: int, c: int, c': int)
    requires x + ul * v + c == rl + c' * BASE
    ensures x * p + v * (u + ul * p) + c * p == v * u + rl * p + c' * (BASE * p)
  {
    assert (x + ul * v + c) * p == (rl + c' * BASE) * p;
    assert v * (u + ul * p) == v * u + (ul * v) * p;
  }

  method SubMul1(rp: array<Limb>, off: nat, up: seq<Limb>, v: Limb) returns (cl: Limb)
    requires off + |up| <= rp.Length
    modifies rp
    ensures rp[..off] == old(rp[..off]) && rp[off + |up|..] == old(rp[off + |up|..])
    ensures IsSubMul(rp[off..off + |up|], old(rp[off..off + |up|]), up, v, cl)
  {
    ghost var r0 := rp[..];
    cl := 0;
    for i := 0 to |up|
      invariant rp[..off] == r0[..off] && rp[off + i..] == r0[off + i..]
      invariant IsSubMul(rp[off..off + i], r0[off..off + i], up[..i], v, cl)
    {
      var (x, c) := SubMulLimb(rp[off + i], up[i], v, cl);
      SubMulRound(rp[off..off + i], r0[off..off + i], up[..i], v, cl, x, rp[off + i], up[i], c);
      assert r0[off..off + i + 1] == r0[off..off + i] + [rp[off + i]];
      assert up[..i + 1] == up[..i] + [up[i]];
      ghost var done := rp[off..off + i];
      rp[off + i], cl := x, c;
      assert rp[off..off + i + 1] == done + [x];
    }
    assert up[..|up|] == up;
  }

  // ---- mpn_add_n, adding into the first operand ----

  function AddLimbCarry(a: Limb, b: Limb, cy: nat): (res: (Limb, nat))
    requires cy <= 1
    ensures res.1 <= 1 && a + b + cy == res.0 + res.1 * BASE
  {
    var r := AddLimb(a, cy);
    var c := if r < cy then 1 else 0;
    var s := AddLimb(r, b);
    (s, c + if s < b then 1 else 0)
  }

  ghost predicate IsSum(a: seq<Limb>, a0: seq<Limb>, b: seq<Limb>, c: nat) {
    V(a) + c * Pow(BASE, |b|) == V(a0) + V(b)
  }

  lemma SumRound(a: seq<Limb>, a0: seq<Limb>, b: seq<Limb>, c: nat, x: Limb, al: Limb, bl: Limb, c': nat)
    requires |a| == |a0| == |b| && IsSum(a, a0, b, c)
    requires al + bl + c == x + c' * BASE
    ensures IsSum(a + [x], a0 + [al], b + [bl], c')
  {
    ValSnoc(BASE, a, x);
    ValSnoc(BASE, a0, al);
    ValSnoc(BASE, b, bl);
    SumStep(Pow(BASE, |b|), x, al, bl, c, c');
  }

  lemma SumStep(p: int, x: int, al: int, bl: int, c: int, c': int)
    requires al + bl + c == x + c' * BASE
    ensures x * p + c' * (BASE * p) == al * p + bl * p + c * p
  {
    assert (al + bl + c) * p == (x + c' * BASE) * p;
  }

  method AddN(rp: array<Limb>, off: nat, bp: seq<Limb>) returns (cy: nat)
    requires off + |bp| <= rp.Length
    modifies rp
    ensures rp[..off] == old(rp[..off]) && rp[off + |bp|..] == old(rp[off + |bp|..])
    ensures cy <= 1 && IsSum(rp[off..off + |bp|], old(rp[off..off + |bp|]), bp, cy)
  {
    ghost var r0 := rp[..];
    cy := 0;
    for i := 0 to |bp|
      invariant rp[..off] == r0[..off] && rp[off + i..] == r0[off + i..]
      invariant cy <= 1 && IsSum(rp[off..off + i], r0[off..off + i], bp[..i], cy)
    {
      var a: Limb, b: Limb := rp[off + i], bp[i];
      var (x, c) := AddLimbCarry(a, b, cy);
      ghost var done := rp[off..off + i];
      SumRound(done, r0[off..off + i], bp[..i], cy, x, a, b, c);
      assert r0[off..off + i + 1] == r0[off..off + i] + [a];
      assert bp[..i + 1] == bp[..i] + [b];
      rp[off + i], cy := x, c;
      assert rp[off..off + i + 1] == done + [x];
    }
    assert bp[..|bp|] == bp;
  }

  // ---- mpn_lshift and mpn_rshift ----

  /** f = 2^cnt and g = 2^(64 - cnt), for a shift by cnt bits. */
  ghost predicate ShiftFactors(f: nat, g: nat) {
    f > 0 && g > 0 && f * g == BASE
  }

  function LowBits(x: Limb, f: nat, g: nat): (y: Limb)  // x << cnt
    requires ShiftFactors(f, g)
  {
    ShiftedFits(x, f, g);
    (x % g) * f
  }

  lemma ShiftedFits(x: Limb, f: nat, g: nat)
    requires ShiftFactors(f, g)
    ensures (x % g) * f + f <= BASE && x / g < f
    ensures (x % g) * f + BASE * (x / g) == f * x
  {
    MulLe(f, x % g + 1, g);
    assert x == g * (x / g) + x % g;
    assert f * x == (f * g) * (x / g) + f * (x % g);
    CancelLt(g, x / g, f);
  }

  function OverBits(x: Limb, g: nat): Limb  // x >> (64 - cnt)
    requires g > 0
  {
    x / g
  }

  /** A limb times a power of two, in two limbs. */
  lemma CutLimb(x: Limb, f: nat, g: nat)
    requires ShiftFactors(f, g)
    ensures f * x == LowBits(x, f, g) + BASE * OverBits(x, g)
    ensures OverBits(x, g) < f && LowBits(x, f, g) + f <= BASE && LowBits(x, f, g) % f == 0
  {
    ShiftedFits(x, f, g);
    ModPlusMultiple(0, x % g, f);
  }

  /** `s`, with `high` still to be put below it, is the upper part of f times `u`. */
  ghost predicate IsShiftLeft(high: Limb, s: seq<Limb>, u: seq<Limb>, f: nat, ret: Limb) {
    f > 0 && high % f == 0 && ret < f && V([high] + s) + ret * Pow(BASE, |u|) == f * V(u)
  }

  lemma ShiftLeftStart(low: Limb, f: nat, g: nat)
    requires ShiftFactors(f, g)
    ensures IsShiftLeft(LowBits(low, f, g), [], [low], f, OverBits(low, g))
  {
    var high: Limb := LowBits(low, f, g);
    ShiftedFits(low, f, g);
    ModPlusMultiple(0, low % g, f);
    ValOne(BASE, low);
    ValOne(BASE, high);
    assert [high] + [] == [high];
    assert Pow(BASE, 1) == BASE * Pow(BASE, 0);
  }

  lemma ShiftLeftRound(high: Limb, s: seq<Limb>, u: seq<Limb>, f: nat, g: nat, low: Limb, ret: Limb)
    requires ShiftFactors(f, g) && IsShiftLeft(high, s, u, f, ret)
    ensures high + OverBits(low, g) < BASE
    ensures IsShiftLeft(LowBits(low, f, g), [high + OverBits(low, g)] + s, [low] + u, f, ret)
  {
    hide Val, Pow, LowBits, OverBits;
    CutLimb(low, f, g);
    HighFits(high, OverBits(low, g), f, g);
    var t: Limb := high + OverBits(low, g);
    ValCons(BASE, high, s);
    ValCons(BASE, t, s);
    ValCons(BASE, LowBits(low, f, g), [t] + s);
    ValCons(BASE, low, u);
    PowStep(BASE, |u|);
    ShiftLeftStep(f, V(u), low, high, LowBits(low, f, g), OverBits(low, g), V(s), ret, Pow(BASE, |u|));
  }

  lemma ShiftLeftStep(f: int, u: int, low: int, high: int, high': int, carry: int, s: int, ret: int, p: int)
    requires high + BASE * s + ret * p == f * u
    requires high' + BASE * carry == f * low
    ensures high' + BASE * (high + carry + BASE * s) + ret * (BASE * p) == f * (low + BASE * u)
  {
    assert f * (low + BASE * u) == f * low + BASE * (f * u);
    assert ret * (BASE * p) == BASE * (ret * p);
  }

  /** Shifts up[..n] left into rp[..n]; the two may be one array. */
  method LShift(rp: array<Limb>, up: array<Limb>, n: nat, f: nat, g: nat) returns (ret: Limb)
    requires 1 <= n <= rp.Length && n <= up.Length && ShiftFactors(f, g)
    modifies rp
    ensures rp[n..] == old(rp[n..])
    ensures ret < f && V(rp[..n]) + ret * Pow(BASE, n) == f * V(old(up[..n]))
  {
    hide Val, Pow, IsShiftLeft, LowBits, OverBits;
    ghost var u0, r0 := up[..], rp[..];
    var k := n - 1;
    ShiftLeftStart(up[k], f, g);
    ret := OverBits(up[k], g);
    var high: Limb := LowBits(up[k], f, g);
    assert u0[k..n] == [up[k]] && rp[k + 1..n] == [];
    while k > 0
      invariant 0 <= k < n && up[..k] == u0[..k] && rp[n..] == r0[n..]
      invariant IsShiftLeft(high, rp[k + 1..n], u0[k..n], f, ret)
    {
      var low: Limb := up[k - 1];
      ShiftLeftRound(high, rp[k + 1..n], u0[k..n], f, g, low, ret);
      assert u0[k - 1..n] == [low] + u0[k..n];
      ghost var done := rp[k + 1..n];
      rp[k] := high + OverBits(low, g);
      assert rp[k..n] == [rp[k]] + done;
      high := LowBits(low, f, g);
      k := k - 1;
    }
    ghost var done := rp[1..n];
    rp[0] := high;
    assert rp[..n] == [high] + done;
    assert u0[0..n] == u0[..n];
    ShiftLeftEnd(high, done, u0[..n], f, ret);
  }

  lemma ShiftLeftEnd(high: Limb, s: seq<Limb>, u: seq<Limb>, f: nat, ret: Limb)
    requires IsShiftLeft(high, s, u, f, ret)
    ensures ret < f && V([high] + s) + ret * Pow(BASE, |u|) == f * V(u)
  {
  }

  lemma HighFits(high: Limb, c: nat, f: nat, g: nat)
    requires ShiftFactors(f, g) && high % f == 0 && c < f
    ensures high + c < BASE
  {
    var m := high / f;
    assert high == f * m;
    CancelLt(f, m, g);
    MulLe(f, m + 1, g);
  }

  /** f times `s` is `u` less the bits `out` that were shifted out below. */
  ghost predicate IsShiftRight(s: seq<Limb>, u: seq<Limb>, f: nat, out: nat) {
    f * V(s) + out == V(u)
  }

  lemma ShiftRightStart(x: Limb, f: nat, g: nat)
    requires ShiftFactors(f, g)
    ensures OverBits(x, f) < g && IsShiftRight([OverBits(x, f)], [x], f, x % f)
  {
    ShiftedFits(x, g, f);
    ValOne(BASE, x);
    ValOne(BASE, x / f);
    assert x == f * (x / f) + x % f;
  }

  lemma ShiftRightRound(s: seq<Limb>, low: Limb, u: seq<Limb>, f: nat, g: nat, high: Limb, out: nat)
    requires ShiftFactors(f, g) && |u| == |s| + 1 && low < g && IsShiftRight(s + [low], u, f, out)
    ensures low + LowBits(high, g, f) < BASE && OverBits(high, f) < g
    ensures IsShiftRight(s + [low + LowBits(high, g, f)] + [OverBits(high, f)], u + [high], f, out)
  {
    hide Val, Pow, LowBits, OverBits;
    CutLimb(high, g, f);
    var t: Limb, h: Limb := low + LowBits(high, g, f), OverBits(high, f);
    ValSnoc(BASE, s, low);
    ValSnoc(BASE, s, t);
    ValSnoc(BASE, s + [t], h);
    ValSnoc(BASE, u, high);
    PowStep(BASE, |s|);
    ShiftRightStep(f, g, V(s), low, LowBits(high, g, f), h, high, Pow(BASE, |s|));
  }

  lemma ShiftRightStep(f: int, g: nat, s: int, low: int, m: int, h: int, high: int, p: int)
    requires f * g == BASE && g * high == m + BASE * h
    ensures f * (s + (low + m) * p + h * (BASE * p)) == f * (s + low * p) + high * (BASE * p)
  {
    assert (low + m) * p + h * (BASE * p) == low * p + (m + BASE * h) * p;
    assert f * ((g * high) * p) == (f * g) * (high * p);
  }

  /** Shifts rp[..n] right in place; returns the bits shifted out, at the top of a limb. */
  method RShift(rp: array<Limb>, n: nat, f: nat, g: nat) returns (ret: Limb)
    requires 1 <= n <= rp.Length && ShiftFactors(f, g)
    modifies rp
    ensures rp[n..] == old(rp[n..])
    ensures ret == LowBits(old(rp[0]), g, f)
    ensures IsShiftRight(rp[..n], old(rp[..n]), f, old(rp[0]) % f)
  {
    hide Val, Pow, IsShiftRight, LowBits, OverBits;
    ghost var r0, out := rp[..], rp[0] % f;
    ret := LowBits(rp[0], g, f);
    ShiftRightStart(rp[0], f, g);
    var low: Limb := OverBits(rp[0], f);
    assert rp[..0] + [low] == [low] && r0[..1] == [rp[0]];
    for i := 1 to n
      invariant rp[i..] == r0[i..]
      invariant low < g && IsShiftRight(rp[..i - 1] + [low], r0[..i], f, out)
    {
      var high: Limb := rp[i];
      ghost var done := rp[..i - 1];
      ShiftRightRound(done, low, r0[..i], f, g, high, out);
      assert r0[..i + 1] == r0[..i] + [high];
      rp[i - 1] := low + LowBits(high, g, f);
      assert rp[..i] == done + [rp[i - 1]];
      low := OverBits(high, f);
    }
    ghost var done := rp[..n - 1];
    rp[n - 1] := low;
    assert rp[..n] == done + [low];
  }
}
