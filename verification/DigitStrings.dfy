/** mini-gmp: digit strings of limb arrays, for bases that are no power of two. Digits are
    taken off and put in by groups that fit a limb. */
module DigitStrings {
  import opened Arith
  import opened Numerals
  import opened Basics
  import opened ReciprocalDivision
  import opened Limbs
  import opened LimbArrays
  import opened DivisorInverse
  import opened LongDivision
  import opened BaseText

  // ---- both digit orders ----

  /** Reading the digits from the other end gives the same number. */
  lemma {:induction false} ReversedValue(b: nat, s: seq<nat>)
    ensures BeVal(b, Reversed(s)) == Val(b, s)
  {
    hide Val;
    if s == [] {
      assert Reversed(s) == [] && Val(b, []) == 0 by { EmptyVal(b); }
    } else {
      ReversedValue(b, s[1..]);
      assert Reversed(s) == Reversed(s[1..]) + [s[0]];
      BeValSnoc(b, Reversed(s[1..]), s[0]);
      ValCons(b, s[0], s[1..]);
      assert s == [s[0]] + s[1..];
    }
  }

  lemma EmptyVal(b: nat)
    ensures Val(b, []) == 0
  {
  }

  /** Digits without a leading zero are the digits of their number. */
  lemma {:induction false} DigitsUnique(b: nat, s: seq<nat>)
    requires b >= 2 && Digits(b, s) && (s != [] ==> s[|s| - 1] > 0)
    ensures BeDigits(Val(b, s), b) == Reversed(s)
    ensures s != [] ==> Val(b, s) > 0
  {
    hide Val;
    if s == [] {
      EmptyVal(b);
    } else {
      DigitsUnique(b, s[1..]);
      var v := Val(b, s[1..]);
      ValCons(b, s[0], s[1..]);
      assert s == [s[0]] + s[1..];
      if |s| == 1 {
        EmptyVal(b);
      } else {
        MulPos(b, v);
      }
      assert b * v == v * b;
      DivModUnique(b * v + s[0], b, v, s[0]);
      assert Reversed(s) == Reversed(s[1..]) + [s[0]];
    }
  }

  // ---- mpn_get_base_info ----

  /** bb is the largest power of the base that fits in a limb, and exp its exponent. */
  datatype BaseInfo = BaseInfo(exp: nat, bb: Limb)

  ghost predicate IsBaseInfo(info: BaseInfo, b: nat) {
    info.exp >= 1 && info.bb == Pow(b, info.exp) && info.bb * b >= BASE
  }

  method GetBaseInfo(b: Limb) returns (info: BaseInfo)
    requires 2 <= b <= 36
    ensures IsBaseInfo(info, b)
  {
    var m := (BASE - 1) / b;
    var exp: nat, p: Limb := 1, b;
    assert Pow(b, 1) == b * Pow(b, 0);
    MaxQuotient(b, m);
    while p <= m
      invariant exp >= 1 && p == Pow(b, exp) && p > 0
      decreases BASE - p
    {
      NextPower(b, p, m);
      assert Pow(b, exp + 1) == b * Pow(b, exp);
      p := p * b;
      exp := exp + 1;
    }
    Exceeds(b, p, m);
    info := BaseInfo(exp, p);
  }

  lemma MaxQuotient(b: nat, m: nat)
    requires b >= 2 && m == (BASE - 1) / b
    ensures m * b <= BASE - 1 < m * b + b
  {
    DivModIdentity(BASE - 1, b);
  }

  lemma NextPower(b: nat, p: nat, m: nat)
    requires b >= 2 && 0 < p <= m && m * b <= BASE - 1
    ensures p < p * b < BASE && p * b == b * p
  {
    MulLe(b, p, m);
    MulLt(p, 1, b);
  }

  lemma Exceeds(b: nat, p: nat, m: nat)
    requires b >= 2 && p > m && BASE - 1 < m * b + b
    ensures p * b >= BASE
  {
    MulLe(b, m + 1, p);
  }

  // ---- mpn_limb_get_str ----

  /** The digits of a limb, least significant first, by division with a precomputed inverse. */
  method LimbGetStr(w0: Limb, b: Limb, inv: DivInverse) returns (sp: seq<nat>)
    requires 2 <= b <= 36 && IsInverseOf(inv, [b])
    ensures Digits(b, sp) && Val(b, sp) == w0 && (sp != [] ==> sp[|sp| - 1] > 0)
  {
    hide Val, Pow;
    sp := [];
    EmptyVal(b);
    var w: Limb := w0;
    PowZero(b);
    while w > 0
      invariant Digits(b, sp) && Val(b, sp) + Pow(b, |sp|) * w == w0
      invariant w == 0 && sp != [] ==> sp[|sp| - 1] > 0
      decreases w
    {
      var r;
      ghost var was := w;
      w, r := LimbDigit(w, b, inv);
      ValSnoc(b, sp, r);
      PowStep(b, |sp|);
      DigitStep(Pow(b, |sp|), was, w, b, r);
      sp := sp + [r];
    }
  }

  lemma DigitStep(p: nat, was: nat, w: nat, b: nat, r: nat)
    requires was == w * b + r
    ensures r * p + (b * p) * w == p * was
  {
    assert p * (w * b + r) == (b * p) * w + r * p;
  }

  /** One division of a limb by the base, on the shifted operands. */
  method LimbDigit(w: Limb, b: Limb, inv: DivInverse) returns (q: Limb, r: Limb)
    requires 2 <= b <= 36 && IsInverseOf(inv, [b]) && w > 0
    ensures w == q * b + r && r < b && q < w
  {
    hide Val, Pow, ShiftBy, ShiftRest, LowBits, Two, UdivQrnndPreinv, IsInverse2by1, IsInverseOf;
    ShiftIsFactors(inv.shift) by { InverseParts(inv, b); }
    InverseParts(inv, b);
    var f, g := ShiftBy(inv.shift), ShiftRest(inv.shift);
    SmallBaseShifts(f, b, inv.d1);
    ShiftedWord(w, f, g);
    var h: Limb, l: Limb := w / g, LowBits(w, f, g);
    HighBelow(w / g, f, inv.d1, b);
    var (q', r') := UdivQrnndPreinv(h, l, inv.d1, inv.di);
    Unshift(w, q', b, f, r');
    QuotientSmaller(w, q', b, r' / f);
    q, r := q', r' / f;
  }

  lemma InverseParts(inv: DivInverse, b: Limb)
    requires IsInverseOf(inv, [b])
    ensures inv.shift < 64 && BASE / 2 <= inv.d1 && ShiftBy(inv.shift) * b == inv.d1
      && IsInverse2by1(BASE, inv.d1, inv.di)
  {
    hide Pow, Val, IsInverse2by1;
    ValOne(BASE, b);
  }

  lemma ShiftedWord(w: Limb, f: nat, g: nat)
    requires ShiftFactors(f, g)
    ensures 0 <= w / g < f && w / g < BASE && Two(w / g, LowBits(w, f, g)) == f * w
  {
    ShiftedFits(w, f, g);
    assert w == g * (w / g) + w % g;
    assert f * w == (f * g) * (w / g) + f * (w % g);
    MulLe(w / g, 1, g);
  }

  lemma SmallBaseShifts(f: nat, b: nat, d: nat)
    requires f * b == d && BASE / 2 <= d && 2 <= b <= 36
    ensures f > 1
  {
    if f <= 1 {
      MulLe(b, f, 1);
    }
  }

  /** What is shifted out of a limb is below the shifted base. */
  lemma HighBelow(h: nat, f: nat, d: nat, b: nat)
    requires h < f && d == f * b && b >= 2
    ensures h < d
  {
    MulLe(f, 1, b);
  }

  lemma QuotientSmaller(w: nat, q: nat, b: nat, r: nat)
    requires w == q * b + r && w > 0 && b >= 2
    ensures q < w
  {
    MulLe(q, 2, b);
  }

  // ---- mpn_get_str_other ----

  /** The digits of a group, filled up with zeros to the length of a full group. */
  method GroupDigits(w: Limb, b: Limb, inv: DivInverse, info: BaseInfo) returns (d: seq<nat>)
    requires 2 <= b <= 36 && IsInverseOf(inv, [b]) && IsBaseInfo(info, b) && w < info.bb
    ensures |d| == info.exp && Digits(b, d) && Val(b, d) == w
  {
    hide Val, Pow;
    d := LimbGetStr(w, b, inv);
    ShortEnough(b, d, info.exp);
    while |d| < info.exp
      invariant |d| <= info.exp && Digits(b, d) && Val(b, d) == w
    {
      ValSnoc(b, d, 0);
      d := d + [0];
    }
  }

  /** A number below b^k has at most k digits. */
  lemma ShortEnough(b: nat, d: seq<nat>, k: nat)
    requires b >= 2 && Digits(b, d) && (d != [] ==> d[|d| - 1] > 0) && Val(b, d) < Pow(b, k)
    ensures |d| <= k
  {
    hide Pow;
    if |d| > k {
      var n := |d| - 1;
      MulLe(Pow(b, n), 1, d[n]);
      PowMono(b, k, n);
    }
  }

  lemma GroupStep(b: nat, sp: seq<nat>, d: seq<nat>, info: BaseInfo, n: nat, was: nat, q: nat, w: nat)
    requires IsBaseInfo(info, b) && |d| == info.exp && Val(b, d) == w
    requires n == Val(b, sp) + Pow(b, |sp|) * was && was == q * info.bb + w
    ensures n == Val(b, sp + d) + Pow(b, |sp + d|) * q
  {
    hide Val, Pow;
    ValConcat(b, sp, d);
    PowAdd(b, |sp|, info.exp);
    GroupArith(Pow(b, |sp|), info.bb, q, w);
  }

  lemma GroupArith(p: int, bb: int, q: int, w: int)
    ensures p * (q * bb + w) == p * w + (p * bb) * q
  {
    assert p * (q * bb) == (p * bb) * q;
  }

  /** Dividing by a limb takes at most one limb off the length. */
  lemma StillNormal(s: seq<Limb>, q: seq<Limb>, d: Limb, r: nat)
    requires |s| == |q| >= 2 && s[|s| - 1] > 0 && V(s) == V(q) * d + r && r < d
    ensures q[|q| - 1] == 0 ==> q[|q| - 2] > 0 && V(q) == V(q[..|q| - 1])
  {
    hide Pow, Val;
    var n := |s| - 1;
    var p := Pow(BASE, n - 1);
    assert Pow(BASE, n) == BASE * p by { PowStep(BASE, n - 1); }
    MulLe(BASE * p, 1, s[n]);
    ValTake(BASE, s, n);
    ValTake(BASE, q, n);
    ValTake(BASE, q, n - 1);
    assert s[..n + 1] == s && q[..n + 1] == q;
    if q[n] == 0 && q[n - 1] == 0 {
      ValBound(BASE, q[..n - 1]);
      TooSmall(V(q), d, r, p);
    }
  }

  lemma TooSmall(q: nat, d: nat, r: nat, p: nat)
    requires q < p && r < d && d < BASE
    ensures q * d + r < BASE * p
  {
    MulLe(d, q + 1, p);
    MulLe(p, d, BASE);
  }

  method GetStrOther(b: Limb, info: BaseInfo, up: array<Limb>, un0: nat) returns (sp: seq<nat>)
    requires 2 <= b <= 36 && IsBaseInfo(info, b) && 1 <= un0 <= up.Length && up[un0 - 1] > 0
    modifies up
    ensures sp == BeDigits(old(V(up[..un0])), b)
  {
    hide Val, Pow, IsInverseOf;
    ghost var n := V(up[..un0]);
    var binv := DivQr1Invert(b);
    sp := [];
    var un := un0;
    EmptyVal(b);
    PowZero(b);
    if un > 1 {
      BigBasePositive(b, info);
      var bbinv := DivQr1Invert(info.bb);
      while un > 1
        invariant 1 <= un <= up.Length && up[un - 1] > 0
        invariant Digits(b, sp) && n == Val(b, sp) + Pow(b, |sp|) * V(up[..un])
        decreases un, V(up[..un])
      {
        ghost var was := up[..un];
        var w, q := DivQr1Preinv(up, up, un, bbinv, info.bb);
        assert q == up[0..un] == up[..un];
        var d := GroupDigits(w, b, binv, info);
        GroupStep(b, sp, d, info, n, V(was), V(up[..un]), w);
        StillNormal(was, up[..un], info.bb, w);
        Shrinks(V(was), V(up[..un]), info.bb, w, was);
        assert up[..un][..un - 1] == up[..un - 1];
        sp := sp + d;
        if up[un - 1] == 0 {
          un := un - 1;
        }
      }
    }
    assert up[..1] == [up[0]];
    ValOne(BASE, up[0]);
    var last := LimbGetStr(up[0], b, binv);
    ValConcat(b, sp, last);
    NonZero(b, last, up[0]);
    sp := sp + last;
    DigitsUnique(b, sp);
    sp := Reverse(sp);
  }

  lemma BigBasePositive(b: nat, info: BaseInfo)
    requires 2 <= b && IsBaseInfo(info, b)
    ensures info.bb >= 2
  {
    hide Pow;
    PowMono(b, 1, info.exp);
    assert Pow(b, 1) == b by { PowStep(b, 0); PowZero(b); }
  }

  lemma Shrinks(n: nat, q: nat, d: nat, r: nat, was: seq<Limb>)
    requires n == q * d + r && d >= 2 && was != [] && was[|was| - 1] > 0 && n == V(was)
    ensures q < n
  {
    hide Pow;
    PowPos(BASE, |was| - 1);
    MulPos(was[|was| - 1], Pow(BASE, |was| - 1));
    MulLe(q, 2, d);
  }

  lemma NonZero(b: nat, d: seq<nat>, v: nat)
    requires Val(b, d) == v > 0
    ensures d != []
  {
  }

  /** The reversal at the end, by exchanging from both ends. */
  method Reverse(s: seq<nat>) returns (sp: seq<nat>)
    ensures sp == Reversed(s)
  {
    sp := s;
    var i, sn := 0, |s|;
    while 2 * i + 1 < sn
      invariant |sp| == sn && 0 <= 2 * i <= sn
      invariant forall k :: 0 <= k < i ==> sp[k] == s[sn - 1 - k]
      invariant forall k :: sn - i <= k < sn ==> sp[k] == s[sn - 1 - k]
      invariant forall k :: i <= k < sn - i ==> sp[k] == s[k]
    {
      var t := sp[i];
      sp := sp[i := sp[sn - i - 1]];
      sp := sp[sn - i - 1 := t];
      i := i + 1;
    }
  }

  // ---- mpn_mul_1 and mpn_add_1 ----

  function MulLimb(u: Limb, v: Limb, cl: Limb): (res: (Limb, Limb))
    ensures u * v + cl == res.0 + res.1 * BASE
  {
    var (hpl, lpl) := UmulPpmm(u, v);
    var s := AddLimb(lpl, cl);
    HalfProduct(BASE, u, v);
    (s, hpl + if s < cl then 1 else 0)
  }

  method Mul1(up: seq<Limb>, v: Limb) returns (rp: seq<Limb>, cl: Limb)
    ensures |rp| == |up| && V(rp) + cl * Pow(BASE, |up|) == v * V(up)
  {
    hide Val, Pow, MulLimb;
    rp, cl := [], 0;
    EmptyVal(BASE);
    assert up[..0] == [];
    for i := 0 to |up|
      invariant |rp| == i && V(rp) + cl * Pow(BASE, i) == v * V(up[..i])
    {
      var (x, c) := MulLimb(up[i], v, cl);
      ValSnoc(BASE, rp, x);
      ValTake(BASE, up, i);
      PowStep(BASE, i);
      MulStep(V(rp), V(up[..i]), v, up[i], cl, x, c, Pow(BASE, i));
      rp, cl := rp + [x], c;
    }
    assert up[..|up|] == up;
  }

  lemma MulStep(r: int, u: int, v: int, ui: int, cl: int, x: int, c: int, p: int)
    requires r + cl * p == v * u && ui * v + cl == x + c * BASE
    ensures r + x * p + c * (BASE * p) == v * (u + ui * p)
  {
    assert (ui * v + cl) * p == (x + c * BASE) * p;
    assert v * (u + ui * p) == v * u + (ui * v) * p;
  }

  method Add1(up: seq<Limb>, w: Limb) returns (rp: seq<Limb>, cy: nat)
    requires up != []
    ensures |rp| == |up| && cy < BASE && V(rp) + cy * Pow(BASE, |up|) == V(up) + w
  {
    hide Val, Pow, AddLimb;
    rp, cy := [], w;
    EmptyVal(BASE);
    PowZero(BASE);
    assert up[..0] == [];
    for i := 0 to |up|
      invariant |rp| == i && cy < BASE && (i > 0 ==> cy <= 1) && V(rp) + cy * Pow(BASE, i) == V(up[..i]) + w
    {
      var r: Limb := AddLimb(up[i], cy);
      var c := if r < cy then 1 else 0;
      Wrapped(up[i], cy, r);
      ValSnoc(BASE, rp, r);
      ValTake(BASE, up, i);
      PowStep(BASE, i);
      AddStep(V(rp), V(up[..i]), w, up[i], cy, r, c, Pow(BASE, i));
      rp, cy := rp + [r], c;
    }
    assert up[..|up|] == up;
  }

  lemma Wrapped(a: Limb, b: Limb, r: Limb)
    requires r == AddLimb(a, b)
    ensures a + b == r + BASE * if r < b then 1 else 0
  {
  }

  lemma AddStep(r: int, u: int, w: int, ui: int, cy: int, x: int, c: int, p: int)
    requires r + cy * p == u + w && ui + cy == x + BASE * c
    ensures r + x * p + c * (BASE * p) == u + ui * p + w
  {
    assert (ui + cy) * p == (x + BASE * c) * p;
    assert (BASE * c) * p == c * (BASE * p);
  }

  // ---- mpn_set_str_other ----

  /** The value of the next k digits. */
  method Group(b: Limb, sp: seq<nat>, j0: nat, k: nat, ghost info: BaseInfo) returns (w: Limb, j: nat)
    requires 2 <= b <= 36 && IsBaseInfo(info, b) && 1 <= k <= info.exp && j0 + k <= |sp| && Digits(b, sp)
    ensures j == j0 + k && w == BeVal(b, sp[j0..j]) && w < Pow(b, k)
  {
    hide Pow, BeVal;
    w := sp[j0];
    j := j0 + 1;
    FirstDigit(b, sp, j0);
    assert Pow(b, 1) == b by { PowStep(b, 0); PowZero(b); }
    while j < j0 + k
      invariant j0 < j <= j0 + k && w == BeVal(b, sp[j0..j]) && w < Pow(b, j - j0)
    {
      assert sp[j0..j + 1] == sp[j0..j] + [sp[j]];
      BeValSnoc(b, sp[j0..j], sp[j]);
      PowStep(b, j - j0);
      PowMono(b, j - j0 + 1, info.exp);
      HornerStep(w, b, sp[j], Pow(b, j - j0));
      w := w * b + sp[j];
      j := j + 1;
    }
  }

  lemma FirstDigit(b: nat, sp: seq<nat>, j: nat)
    requires j < |sp|
    ensures BeVal(b, sp[j..j + 1]) == sp[j]
  {
    assert sp[j..j + 1] == [sp[j]];
    assert [sp[j]][..0] == [];
  }

  lemma HornerStep(w: nat, b: nat, d: nat, p: nat)
    requires w < p && d < b
    ensures w * b + d < b * p
  {
    MulLe(b, w + 1, p);
  }

  lemma {:induction false} BeValConcat(b: nat, s: seq<nat>, t: seq<nat>)
    ensures BeVal(b, s + t) == BeVal(b, s) * Pow(b, |t|) + BeVal(b, t)
  {
    hide Pow;
    if t == [] {
      assert s + t == s;
      PowZero(b);
    } else {
      var n := |t| - 1;
      assert s + t == (s + t[..n]) + [t[n]];
      BeValSnoc(b, s + t[..n], t[n]);
      BeValConcat(b, s, t[..n]);
      PowStep(b, n);
      ConcatStep(BeVal(b, s), Pow(b, n), BeVal(b, t[..n]), b, t[n]);
    }
  }

  lemma ConcatStep(s: int, p: int, t: int, b: int, d: int)
    ensures (s * p + t) * b + d == s * (b * p) + (t * b + d)
  {
    assert (s * p) * b == s * (b * p);
  }

  /** One group more: the number so far times bb, plus the group. */
  method Append(rp0: seq<Limb>, bb: Limb, w: Limb) returns (rp: seq<Limb>)
    requires rp0 != [] && w < bb && (|rp0| > 1 ==> rp0[|rp0| - 1] > 0)
    ensures rp != [] && V(rp) == V(rp0) * bb + w && (|rp| > 1 ==> rp[|rp| - 1] > 0)
  {
    hide Val, Pow;
    ghost var n := |rp0|;
    var cy: Limb;
    rp, cy := Mul1(rp0, bb);
    ghost var r1 := rp;
    var cy2;
    rp, cy2 := Add1(rp, w);
    ghost var p := Pow(BASE, n);
    VLimit(rp0);
    VLimit(rp);
    MulLimit(V(rp0), bb, w, p, V(rp), cy + cy2) by {
      assert V(rp) + (cy + cy2) * p == V(rp) + cy * p + cy2 * p;
    }
    if cy + cy2 > 0 {
      var c: Limb := cy + cy2;
      ValSnoc(BASE, rp, c);
      rp := rp + [c];
    } else if n > 1 {
      TopStays(rp0, rp, bb, w);
    }
  }

  lemma VLimit(s: seq<Limb>)
    ensures V(s) < Pow(BASE, |s|)
  {
    ValBound(BASE, s);
  }

  /** The carry out of the multiplication and the addition fits in one limb. */
  lemma MulLimit(v: nat, bb: nat, w: nat, p: nat, r: nat, c: nat)
    requires v < p && w < bb < BASE && r + c * p == bb * v + w && r < p
    ensures c < BASE
  {
    MulLe(bb, v + 1, p);
    CancelLt(p, c, bb) by { assert p * c == c * p && p * bb == bb * p; }
  }

  lemma TopStays(s: seq<Limb>, r: seq<Limb>, bb: nat, w: nat)
    requires |s| == |r| > 1 && s[|s| - 1] > 0 && V(r) == bb * V(s) + w && bb > 0
    ensures r[|r| - 1] > 0
  {
    hide Pow, Val;
    var n := |s| - 1;
    ValTake(BASE, s, n);
    ValTake(BASE, r, n);
    assert s[..n + 1] == s && r[..n + 1] == r;
    ValBound(BASE, r[..n]);
    MulLe(Pow(BASE, n), 1, s[n]);
    MulLe(V(s), 1, bb);
  }

  method SetStrOther(sp: seq<nat>, b: Limb, info: BaseInfo) returns (rp: seq<Limb>)
    requires sp != [] && 2 <= b <= 36 && IsBaseInfo(info, b) && Digits(b, sp)
    ensures rp != [] && V(rp) == BeVal(b, sp) && (|rp| > 1 ==> rp[|rp| - 1] > 0)
  {
    hide Val, Pow, BeVal, Digits;
    var sn := |sp|;
    var k := 1 + (sn - 1) % info.exp;
    FirstGroup(sn, info.exp, k);
    var w, j := Group(b, sp, 0, k, info);
    rp := [w];
    ValOne(BASE, w);
    assert sp[0..j] == sp[..j];
    while j < sn
      invariant 0 <= j <= sn && (sn - j) % info.exp == 0
      invariant rp != [] && V(rp) == BeVal(b, sp[..j]) && (|rp| > 1 ==> rp[|rp| - 1] > 0)
      decreases sn - j
    {
      WholeGroup(sn - j, info.exp);
      ghost var j0 := j;
      w, j := Group(b, sp, j, info.exp, info);
      rp := Append(rp, info.bb, w);
      BeValConcat(b, sp[..j0], sp[j0..j]);
      assert sp[..j] == sp[..j0] + sp[j0..j];
    }
    assert sp[..sn] == sp;
  }

  lemma FirstGroup(sn: nat, e: nat, k: nat)
    requires sn >= 1 && e >= 1 && k == 1 + (sn - 1) % e
    ensures 1 <= k <= e && k <= sn && (sn - k) % e == 0
  {
    var q, r := (sn - 1) / e, (sn - 1) % e;
    DivModIdentity(sn - 1, e);
    MulPos(q, e);
    DivModUnique(sn - k, e, q, 0);
  }

  lemma WholeGroup(m: nat, e: nat)
    requires m > 0 && e >= 1 && m % e == 0
    ensures m >= e && (m - e) % e == 0
  {
    DivModIdentity(m, e);
    CancelLt(e, 0, m / e);
    MulLe(e, 1, m / e);
    DivModUnique(m - e, e, m / e - 1, 0);
  }
}
