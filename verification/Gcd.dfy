/** mpz_gcdext and mpz_invert: the binary extended gcd with deferred powers of two. */
module Gcd {
  import opened Arith
  import opened Numerals
  import opened Limbs

  // ---- divisibility ----

  ghost predicate DividesInt(d: nat, n: int) {
    exists k: int :: n == Times(k, d)
  }

  function Times(k: int, d: int): int { k * d }

  /** The greatest common divisor: a common divisor that every other one divides. */
  ghost predicate IsGcd(g: nat, u: int, v: int) {
    && DividesInt(g, u) && DividesInt(g, v)
    && forall c: nat :: DividesInt(c, u) && DividesInt(c, v) ==> DividesInt(c, g)
  }

  ghost predicate Coprime(u: int, v: int) {
    IsGcd(1, u, v)
  }

  lemma DividesBy(d: nat, n: int, k: int)
    requires n == k * d
    ensures DividesInt(d, n)
  {
    assert n == Times(k, d);
  }

  lemma DividesCombination(c: nat, u: int, v: int, s: int, t: int)
    requires DividesInt(c, u) && DividesInt(c, v)
    ensures DividesInt(c, s * u + t * v)
  {
    var i :| u == Times(i, c);
    var j :| v == Times(j, c);
    assert s * u + t * v == (s * i + t * j) * c;
    DividesBy(c, s * u + t * v, s * i + t * j);
  }

  /** A common divisor that is an integer combination is the greatest one. */
  lemma BezoutIsGcd(g: nat, u: int, v: int, s: int, t: int)
    requires DividesInt(g, u) && DividesInt(g, v) && g == s * u + t * v
    ensures IsGcd(g, u, v)
  {
    forall c: nat | DividesInt(c, u) && DividesInt(c, v)
      ensures DividesInt(c, g)
    {
      DividesCombination(c, u, v, s, t);
    }
  }

  lemma GcdUnique(g: nat, h: nat, u: int, v: int)
    requires IsGcd(g, u, v) && IsGcd(h, u, v)
    ensures g == h
  {
    assert DividesInt(g, h) && DividesInt(h, g);
    MutualDivisors(g, h);
  }

  lemma MutualDivisors(g: nat, h: nat)
    requires DividesInt(g, h) && DividesInt(h, g)
    ensures g == h
  {
    var i :| h == Times(i, g);
    var j :| g == Times(j, h);
    if g > 0 && h > 0 {
      CancelLt(g, 0, i);
      CancelLt(h, 0, j);
      MulLe(g, 1, i);
      MulLe(h, 1, j);
    }
  }

  // ---- mpz_make_odd ----

  /** The odd part of a positive number and the power of two taken out. */
  function MakeOdd(r: nat): (res: (nat, nat))
    requires r > 0
    ensures res.0 % 2 == 1 && r == res.0 * Pow(2, res.1)
    ensures r % 2 == 0 ==> res.1 > 0
  {
    if r % 2 == 1 then
      (r, 0)
    else
      var (x, k) := MakeOdd(r / 2);
      DoubleOut(x, Pow(2, k));
      (x, k + 1)
  }

  lemma DoubleOut(x: int, p: int)
    ensures x * (2 * p) == 2 * (x * p)
  {
  }

  lemma OddPartSmaller(x: nat, k: nat, r: nat)
    requires r == x * Pow(2, k) && r > 0
    ensures 0 < x <= r && (k > 0 ==> x < r)
  {
    PowPos(2, k);
    MulLe(x, 1, Pow(2, k));
    if k > 0 {
      PowPos(2, k - 1);
      MulLt(x, 1, Pow(2, k));
    }
  }

  // ---- the cofactor matrix ----

  /** u = t0 tu + t1 tv and v = s0 tu + s1 tv, with determinant 2^power. */
  ghost predicate Cofactors(u: nat, v: nat, tu: nat, tv: nat, s0: nat, s1: nat, t0: nat, t1: nat, power: nat) {
    && u == t0 * tu + t1 * tv
    && v == s0 * tu + s1 * tv
    && t0 * s1 - s0 * t1 == Pow(2, power)
  }

  /** Subtracting tu from tv adds the tv column to the tu column. */
  lemma SubtractFromV(u: nat, v: nat, tu: nat, tv: nat, s0: nat, s1: nat, t0: nat, t1: nat, power: nat)
    requires Cofactors(u, v, tu, tv, s0, s1, t0, t1, power) && tu <= tv
    ensures Cofactors(u, v, tu, tv - tu, s0 + s1, s1, t0 + t1, t1, power)
  {
    assert t1 * (tv - tu) == t1 * tv - t1 * tu && s1 * (tv - tu) == s1 * tv - s1 * tu;
    assert (t0 + t1) * s1 - (s0 + s1) * t1 == t0 * s1 - s0 * t1;
  }

  lemma SubtractFromU(u: nat, v: nat, tu: nat, tv: nat, s0: nat, s1: nat, t0: nat, t1: nat, power: nat)
    requires Cofactors(u, v, tu, tv, s0, s1, t0, t1, power) && tv <= tu
    ensures Cofactors(u, v, tu - tv, tv, s0, s0 + s1, t0, t0 + t1, power)
  {
    assert t0 * (tu - tv) == t0 * tu - t0 * tv && s0 * (tu - tv) == s0 * tu - s0 * tv;
    assert t0 * (s0 + s1) - s0 * (t0 + t1) == t0 * s1 - s0 * t1;
  }

  lemma ScaleOut(a: int, x: int, p: int)
    ensures (a * p) * x == a * (x * p)
  {
  }

  lemma DetScale(a: int, b: int, c: int, d: int, p: int)
    ensures a * (b * p) - c * (d * p) == (a * b - c * d) * p
  {
  }

  /** Taking 2^k out of tv multiplies its column by 2^k. */
  lemma ShiftV(u: nat, v: nat, tu: nat, tv: nat, s0: nat, s1: nat, t0: nat, t1: nat, power: nat, x: nat, k: nat)
    requires Cofactors(u, v, tu, tv, s0, s1, t0, t1, power) && tv == x * Pow(2, k)
    ensures Cofactors(u, v, tu, x, s0, s1 * Pow(2, k), t0, t1 * Pow(2, k), power + k)
  {
    var p := Pow(2, k);
    PowAdd(2, power, k);
    ScaleOut(t1, x, p);
    ScaleOut(s1, x, p);
    DetScale(t0, s1, s0, t1, p);
  }

  lemma ShiftU(u: nat, v: nat, tu: nat, tv: nat, s0: nat, s1: nat, t0: nat, t1: nat, power: nat, x: nat, k: nat)
    requires Cofactors(u, v, tu, tv, s0, s1, t0, t1, power) && tu == x * Pow(2, k)
    ensures Cofactors(u, v, x, tv, s0 * Pow(2, k), s1, t0 * Pow(2, k), t1, power + k)
  {
    var p := Pow(2, k);
    PowAdd(2, power, k);
    ScaleOut(t0, x, p);
    ScaleOut(s0, x, p);
    DetScale(s1, t0, t1, s0, p);
  }

  // ---- the reduction loop of mpz_gcdext ----

  lemma ScaledUp(s: nat, t: nat, k: nat)
    ensures s * Pow(2, k) >= 0 && t * Pow(2, k) >= 0
  {
    MulPos(s, Pow(2, k));
    MulPos(t, Pow(2, k));
  }

  /** One round on the side of tv: subtract, then take out the twos. */
  method StepV(ghost u: nat, ghost v: nat, tu: nat, tv: nat, s0: nat, s1: nat, t0: nat, t1: nat, power: nat)
    returns (tv': nat, s0': nat, s1': nat, t0': nat, t1': nat, power': nat)
    requires tu < tv && tu % 2 == 1 && tv % 2 == 1 && Cofactors(u, v, tu, tv, s0, s1, t0, t1, power)
    ensures tv' < tv && tv' % 2 == 1 && Cofactors(u, v, tu, tv', s0', s1', t0', t1', power')
  {
    SubtractFromV(u, v, tu, tv, s0, s1, t0, t1, power);
    var (x, shift) := MakeOdd(tv - tu);
    ShiftV(u, v, tu, tv - tu, s0 + s1, s1, t0 + t1, t1, power, x, shift);
    OddPartSmaller(x, shift, tv - tu);
    ScaledUp(s1, t1, shift);
    tv', s0', t0' := x, s0 + s1, t0 + t1;
    s1', t1', power' := s1 * Pow(2, shift), t1 * Pow(2, shift), power + shift;
  }

  method StepU(ghost u: nat, ghost v: nat, tu: nat, tv: nat, s0: nat, s1: nat, t0: nat, t1: nat, power: nat)
    returns (tu': nat, s0': nat, s1': nat, t0': nat, t1': nat, power': nat)
    requires tv < tu && tu % 2 == 1 && tv % 2 == 1 && Cofactors(u, v, tu, tv, s0, s1, t0, t1, power)
    ensures tu' < tu && tu' % 2 == 1 && Cofactors(u, v, tu', tv, s0', s1', t0', t1', power')
  {
    SubtractFromU(u, v, tu, tv, s0, s1, t0, t1, power);
    var (x, shift) := MakeOdd(tu - tv);
    ShiftU(u, v, tu - tv, tv, s0, s0 + s1, t0, t0 + t1, power, x, shift);
    OddPartSmaller(x, shift, tu - tv);
    ScaledUp(s0, t0, shift);
    tu', s1', t1' := x, s0 + s1, t0 + t1;
    s0', t0', power' := s0 * Pow(2, shift), t0 * Pow(2, shift), power + shift;
  }

  /** Reduces two odd numbers to their gcd, carrying the cofactors along. */
  method Reduce(ghost u: nat, ghost v: nat, tu0: nat, tv0: nat, a0: nat, a1: nat, b0: nat, b1: nat, p0: nat)
    returns (tv: nat, s0: nat, s1: nat, t0: nat, t1: nat, power: nat)
    requires tu0 % 2 == 1 && tv0 % 2 == 1 && Cofactors(u, v, tu0, tv0, a0, a1, b0, b1, p0)
    ensures tv % 2 == 1 && Cofactors(u, v, tv, tv, s0, s1, t0, t1, power)
  {
    var tu: nat := tu0;
    tv, s0, s1, t0, t1, power := tv0, a0, a1, b0, b1, p0;
    while tu != tv
      invariant tu % 2 == 1 && tv % 2 == 1 && Cofactors(u, v, tu, tv, s0, s1, t0, t1, power)
      decreases tu + tv
    {
      if tu < tv {
        tv, s0, s1, t0, t1, power := StepV(u, v, tu, tv, s0, s1, t0, t1, power);
      } else {
        tu, s0, s1, t0, t1, power := StepU(u, v, tu, tv, s0, s1, t0, t1, power);
      }
    }
  }

  // ---- removing the power of two ----

  /** a and b are the two inputs over their gcd: s0 a + t0 b is a power of two. */
  ghost predicate Scaled(a: nat, b: nat, s0: int, t0: int, power: nat) {
    && a > 0 && b > 0 && (a % 2 == 1 || b % 2 == 1)
    && s0 * a + t0 * b == Pow(2, power)
    && 0 - b < s0 <= 0
  }

  lemma EvenSum(a: nat, b: nat, s: int, t: int, c: int)
    requires a % 2 == 1 || b % 2 == 1
    requires s * a + t * b == 2 * c
    ensures s % 2 == 1 || t % 2 == 1 ==> s % 2 == b % 2 && t % 2 == a % 2
  {
    var i, j, k, l := a / 2, b / 2, s / 2, t / 2;
    var am, bm, sm, tm := a % 2, b % 2, s % 2, t % 2;
    assert s * a == 2 * (k * a + sm * i) + sm * am by { EvenPart(s, a, k, sm, i, am); }
    assert t * b == 2 * (l * b + tm * j) + tm * bm by { EvenPart(t, b, l, tm, j, bm); }
    assert (sm * am + tm * bm) % 2 == 0;
  }

  lemma EvenPart(s: int, a: int, k: int, sm: int, i: int, am: int)
    requires s == 2 * k + sm && a == 2 * i + am
    ensures s * a == 2 * (k * a + sm * i) + sm * am
  {
    assert s * a == 2 * (k * a) + sm * (2 * i + am);
  }

  lemma HalveStep(a: nat, b: nat, s0: int, t0: int, power: nat)
    requires power > 0 && Scaled(a, b, s0, t0, power)
    ensures var odd := s0 % 2 == 1 || t0 % 2 == 1;
      var s, t := if odd then s0 - b else s0, if odd then t0 + a else t0;
      s % 2 == 0 && t % 2 == 0 && Scaled(a, b, s / 2, t / 2, power - 1)
  {
    hide Pow;
    PowStep(2, power - 1);
    EvenSum(a, b, s0, t0, Pow(2, power - 1));
    CrossCancel(s0, t0, a, b);
    if s0 % 2 == 1 || t0 % 2 == 1 {
      SameParity(s0, t0, a, b);
      HalfOf(s0 - b, t0 + a, a, b, Pow(2, power - 1));
    } else {
      HalfOf(s0, t0, a, b, Pow(2, power - 1));
    }
  }

  lemma SameParity(s: int, t: int, a: int, b: int)
    requires s % 2 == b % 2 && t % 2 == a % 2
    ensures (s - b) % 2 == 0 && (t + a) % 2 == 0
  {
  }

  lemma HalfOf(s: int, t: int, a: int, b: int, c: int)
    requires s % 2 == 0 && t % 2 == 0 && s * a + t * b == 2 * c
    ensures (s / 2) * a + (t / 2) * b == c
  {
    HalfCombination(s, t, s / 2, t / 2, a, b);
  }

  lemma CrossCancel(s: int, t: int, a: int, b: int)
    ensures (s - b) * a + (t + a) * b == s * a + t * b && (s + b) * a + (t - a) * b == s * a + t * b
  {
  }

  lemma HalfCombination(s: int, t: int, i: int, j: int, a: int, b: int)
    ensures s == 2 * i && t == 2 * j ==> s * a + t * b == 2 * (i * a + j * b)
  {
  }

  method RemovePower(a: nat, b: nat, s: int, t: int, p: nat) returns (s0: int, t0: int)
    requires Scaled(a, b, s, t, p)
    ensures s0 * a + t0 * b == 1 && 2 * s0 <= b && 0 - b <= 2 * s0
  {
    s0, t0 := s, t;
    var power: nat := p;
    while power > 0
      invariant Scaled(a, b, s0, t0, power)
    {
      HalveStep(a, b, s0, t0, power);
      if s0 % 2 == 1 || t0 % 2 == 1 {
        s0, t0 := s0 - b, t0 + a;
      }
      s0, t0, power := s0 / 2, t0 / 2, power - 1;
    }
    var s1 := s0 + b;
    CrossCancel(s0, t0, a, b);
    if Abs(s0) > Abs(s1) {
      s0, t0 := s1, t0 - a;
    }
  }

  // ---- mpz_gcdext ----

  /** The odd gcd `g` with u = a g and v = b g, and -s0 a + t0 b a power of two. */
  ghost predicate OddGcd(u: nat, v: nat, g: nat, a: nat, b: nat, s0: nat, t0: nat, power: nat) {
    g % 2 == 1 && u == a * g && v == b * g && s0 < b && t0 * b - s0 * a == Pow(2, power)
  }

  lemma PositiveFactor(a: nat, b: nat)
    requires a * b > 0
    ensures a > 0 && b > 0
  {
  }

  lemma ReducedIsGcd(u: nat, v: nat, g: nat, s0: nat, s1: nat, t0: nat, t1: nat, power: nat)
    requires g % 2 == 1 && Cofactors(u, v, g, g, s0, s1, t0, t1, power)
    ensures OddGcd(u, v, g, t0 + t1, s0 + s1, s0, t0, power)
  {
    assert t0 * (s0 + s1) - s0 * (t0 + t1) == t0 * s1 - s0 * t1;
    PowPos(2, power);
    MulPos(s0, t1);
    PositiveFactor(t0, s1);
  }

  lemma ExactIsGcd(u: nat, v: nat, g: nat, s1: nat, t0: nat, t1: nat, power: nat)
    requires g % 2 == 1 && Cofactors(u, v, 0, g, 0, s1, t0, t1, power)
    ensures OddGcd(u, v, g, t1, s1, 0, t0, power)
  {
    PowPos(2, power);
    PositiveFactor(t0, s1);
  }

  /** The initial division tu = q tv + tu' and the matrix it starts from. */
  lemma InitialCofactors(tu: nat, tv: nat, q: nat, r: nat, uz: nat, vz: nat)
    requires tu == tv * q + r
    ensures q * Pow(2, uz) >= 0
    ensures Cofactors(tu * Pow(2, uz), tv * Pow(2, vz), r, tv, 0, Pow(2, vz), Pow(2, uz), q * Pow(2, uz), uz + vz)
  {
    var p, w := Pow(2, uz), Pow(2, vz);
    PowAdd(2, uz, vz);
    MulPos(q, p);
    InitialStep(p, r, q, tv, tu);
  }

  lemma InitialStep(p: int, r: int, q: int, tv: int, tu: int)
    requires tu == tv * q + r
    ensures tu * p == p * r + (q * p) * tv
  {
  }

  method OddExtended(ghost u: nat, ghost v: nat, tu: nat, tv: nat, uz: nat, vz: nat)
    returns (g: nat, s0: nat, t0: nat, power: nat, ghost a: nat, ghost b: nat)
    requires tu % 2 == 1 && tv % 2 == 1 && u == tu * Pow(2, uz) && v == tv * Pow(2, vz)
    ensures OddGcd(u, v, g, a, b, s0, t0, power)
  {
    var q: nat, r: nat := tu / tv, tu % tv;
    InitialCofactors(tu, tv, q, r, uz, vz);
    var s1, t1: nat := Pow(2, vz), q * Pow(2, uz);
    s0, t0, power := 0, Pow(2, uz), uz + vz;
    if r > 0 {
      var (x, shift) := MakeOdd(r);
      ShiftU(u, v, r, tv, s0, s1, t0, t1, power, x, shift);
      ScaledUp(s0, t0, shift);
      g, s0, s1, t0, t1, power :=
        Reduce(u, v, x, tv, s0 * Pow(2, shift), s1, t0 * Pow(2, shift), t1, power + shift);
      ReducedIsGcd(u, v, g, s0, s1, t0, t1, power);
      a, b := t0 + t1, s0 + s1;
    } else {
      ExactIsGcd(u, v, tv, s1, t0, t1, power);
      g, a, b := tv, t1, s1;
    }
  }

  /** A number with its power of two: |u| = n * w, n = tu * 2^uz. */
  ghost predicate Factored(u: int, n: nat, w: nat, tu: nat, uz: nat) {
    tu % 2 == 1 && Abs(u) == n * w && n == tu * Pow(2, uz)
  }

  lemma OddQuotient(x: nat, uz: nat, a: nat, g: nat)
    requires x % 2 == 1 && uz == 0 && x * Pow(2, uz) == a * g
    ensures a % 2 == 1
  {
    EvenFactor(a / 2, g);
  }

  lemma EvenFactor(k: int, g: int)
    ensures ((2 * k) * g) % 2 == 0
  {
    assert (2 * k) * g == 2 * (k * g);
  }

  lemma Undo(u: int, a: nat, g0: nat, w: nat, U: nat)
    requires w > 0 && g0 > 0 && Abs(u) == U * w && U == a * g0
    ensures g0 * w > 0 && Abs(u) == a * (g0 * w)
    ensures DividesInt(g0 * w, u)
  {
    MulPos(g0, w);
    assert Abs(u) == a * (g0 * w);
    DividesBy(g0 * w, u, if u < 0 then 0 - a else a);
  }

  lemma SignedBezout(u: int, v: int, a: nat, b: nat, g: nat, s: int, t: int)
    requires Abs(u) == a * g && Abs(v) == b * g && s * a + t * b == 1
    ensures (if u < 0 then -s else s) * u + (if v < 0 then -t else t) * v == g
  {
    assert (if u < 0 then -s else s) * u == s * (a * g);
    assert (if v < 0 then -t else t) * v == t * (b * g);
    assert s * (a * g) + t * (b * g) == (s * a + t * b) * g;
  }

  method GcdextCore(u: int, v: int, ghost m: nat, ghost n: nat, tu: nat, tv: nat, uz: nat, vz: nat, gz: nat)
    returns (g: nat, s: int, t: int)
    requires u != 0 && v != 0 && Factored(u, m, Pow(2, gz), tu, uz) && Factored(v, n, Pow(2, gz), tv, vz)
    requires uz == 0 || vz == 0
    ensures g > 0 && DividesInt(g, u) && DividesInt(g, v) && g == s * u + t * v
    ensures 2 * Abs(s) * g <= Abs(v)
  {
    var s0: int, t0: int, power: nat;
    ghost var a: nat, b: nat;
    g, s0, t0, power, a, b := CommonDivisor(u, v, m, n, tu, tv, uz, vz, gz);
    ExactQuotient(Abs(u), a, g);
    ExactQuotient(Abs(v), b, g);
    s, t := FinishCofactors(u, v, g, Abs(u) / g, Abs(v) / g, s0, t0, power);
  }

  lemma ExactQuotient(n: nat, a: nat, g: nat)
    requires g > 0 && n == a * g
    ensures n / g == a
  {
    DivModUnique(n, g, a, 0);
  }

  method CommonDivisor(u: int, v: int, ghost m: nat, ghost n: nat, tu: nat, tv: nat, uz: nat, vz: nat, gz: nat)
    returns (g: nat, s0: int, t0: int, power: nat, ghost a: nat, ghost b: nat)
    requires u != 0 && v != 0 && Factored(u, m, Pow(2, gz), tu, uz) && Factored(v, n, Pow(2, gz), tv, vz)
    requires uz == 0 || vz == 0
    ensures g > 0 && DividesInt(g, u) && DividesInt(g, v) && Abs(u) == a * g && Abs(v) == b * g
    ensures Scaled(a, b, s0, t0, power)
  {
    var x: nat, y: nat;
    g, x, y, power, a, b := OddExtended(m, n, tu, tv, uz, vz);
    PowPos(2, gz);
    CoreQuotients(u, v, m, n, Pow(2, gz), tu, tv, uz, vz, g, a, b, x, y, power);
    g, s0, t0 := g * Pow(2, gz), 0 - x, y;
  }

  lemma CoreQuotients(u: int, v: int, m: nat, n: nat, w: nat, tu: nat, tv: nat, uz: nat, vz: nat,
                      g: nat, a: nat, b: nat, s0: nat, t0: nat, power: nat)
    requires u != 0 && v != 0 && w > 0 && Factored(u, m, w, tu, uz) && Factored(v, n, w, tv, vz)
    requires (uz == 0 || vz == 0) && OddGcd(m, n, g, a, b, s0, t0, power)
    ensures g * w > 0 && DividesInt(g * w, u) && DividesInt(g * w, v)
    ensures Abs(u) == a * (g * w) && Abs(v) == b * (g * w)
    ensures Scaled(a, b, 0 - s0, t0, power)
  {
    Undo(u, a, g, w, m);
    Undo(v, b, g, w, n);
    if uz == 0 { OddQuotient(tu, uz, a, g); } else { OddQuotient(tv, vz, b, g); }
    ScaledStart(a, b, g * w, u, s0, t0, power);
  }

  /** Removes the power of two, picks the smaller cofactor, and puts the signs back. */
  method FinishCofactors(u: int, v: int, ghost g: nat, a: nat, b: nat, s0: int, t0: int, power: nat)
    returns (s: int, t: int)
    requires Abs(u) == a * g && Abs(v) == b * g && Scaled(a, b, s0, t0, power)
    ensures g == s * u + t * v && 2 * Abs(s) * g <= Abs(v)
  {
    s, t := RemovePower(a, b, s0, t0, power);
    SignedBezout(u, v, a, b, g, s, t);
    SmallCofactor(g, Abs(s), b);
    s, t := if u < 0 then -s else s, if v < 0 then -t else t;
  }

  lemma SmallCofactor(g: nat, x: nat, b: nat)
    requires 2 * x <= b
    ensures 2 * x * g <= b * g
  {
    MulLe(g, 2 * x, b);
  }

  lemma ScaledStart(a: nat, b: nat, g: nat, u: int, s0: nat, t0: nat, power: nat)
    requires u != 0 && Abs(u) == a * g && s0 < b && t0 * b - s0 * a == Pow(2, power)
    requires a % 2 == 1 || b % 2 == 1
    ensures Scaled(a, b, 0 - s0, t0, power)
  {
    assert (0 - s0) * a == 0 - s0 * a;
    PositiveFactor(a, g);
  }

  function LimbSize(n: nat): nat { if n == 0 then 0 else 1 + LimbSize(n / BASE) }

  method Gcdext(u: int, v: int) returns (g: nat, s: int, t: int)
    ensures g == s * u + t * v
    ensures IsGcd(g, u, v)
    ensures u != 0 && v != 0 ==> g > 0 && (2 * Abs(s) * g <= Abs(v) || 2 * Abs(t) * g <= Abs(u))
  {
    hide Pow, DividesInt, Factored, IsGcd;
    if u == 0 {
      g, s, t := Abs(v), 0, if v > 0 then 1 else if v == 0 then 0 else -1;
      DividesBy(g, u, 0);
      DividesBy(g, v, t);
    } else if v == 0 {
      g, s, t := Abs(u), if u > 0 then 1 else -1, 0;
      DividesBy(g, u, s);
      DividesBy(g, v, 0);
    } else {
      var (tu, uz) := MakeOdd(Abs(u));
      var (tv, vz) := MakeOdd(Abs(v));
      var gz := if uz < vz then uz else vz;
      ghost var m := FactorOut(u, tu, uz, gz);
      ghost var n := FactorOut(v, tv, vz, gz);
      if LimbSize(tu) < LimbSize(tv) {
        g, t, s := GcdextCore(v, u, n, m, tv, tu, vz - gz, uz - gz, gz);
      } else {
        g, s, t := GcdextCore(u, v, m, n, tu, tv, uz - gz, vz - gz, gz);
      }
    }
    BezoutIsGcd(g, u, v, s, t);
  }

  lemma FactorOut(u: int, tu: nat, uz: nat, gz: nat) returns (n: nat)
    requires gz <= uz && tu % 2 == 1 && Abs(u) == tu * Pow(2, uz)
    ensures Factored(u, n, Pow(2, gz), tu, uz - gz)
  {
    PowAdd(2, uz - gz, gz);
    MulPos(tu, Pow(2, uz - gz));
    n := tu * Pow(2, uz - gz);
    FactorStep(tu, Pow(2, uz - gz), Pow(2, gz));
  }

  lemma FactorStep(x: int, p: int, w: int)
    ensures x * (p * w) == (x * p) * w
  {
  }

  // ---- mpz_invert ----

  /** `ok` is false and `r` stays as it was when there is no inverse. */
  method Invert(u: int, m: int, r0: int) returns (ok: bool, r: int)
    ensures ok <==> Abs(m) > 1 && Coprime(u, m)
    ensures ok ==> 0 < r < Abs(m) && (r * u) % Abs(m) == 1
    ensures !ok ==> r == r0
  {
    r := r0;
    if u == 0 || Abs(m) <= 1 {
      NoInverse(u, m);
      return false, r0;
    }
    var g, s, t := Gcdext(u, m);
    ok := g == 1;
    if ok {
      InverseRange(u, m, s, t);
      InverseResidue(u, m, s, t);
      var tr := s;
      if tr < 0 {
        tr := if m >= 0 then tr + m else tr - m;
      }
      r := tr;
    } else if Coprime(u, m) {
      GcdUnique(g, 1, u, m);
    }
  }

  lemma NoInverse(u: int, m: int)
    requires u == 0 || Abs(m) <= 1
    ensures !(Abs(m) > 1 && Coprime(u, m))
  {
    if u == 0 && Abs(m) > 1 && Coprime(u, m) {
      DividesBy(Abs(m), u, 0);
      DividesBy(Abs(m), m, if m < 0 then -1 else 1);
      assert DividesInt(Abs(m), 1);
      DividesBy(1, Abs(m), Abs(m));
      MutualDivisors(Abs(m), 1);
    }
  }

  lemma InverseRange(u: int, m: int, s: int, t: int)
    requires Abs(m) > 1 && u != 0 && 1 == s * u + t * m
    requires 2 * Abs(s) <= Abs(m) || 2 * Abs(t) <= Abs(u)
    ensures 0 < Abs(s) < Abs(m)
  {
    AbsProduct(s, u);
    AbsProduct(t, m);
    InverseNonzero(Abs(s), Abs(t), Abs(u), Abs(m));
    InverseSmall(Abs(s), Abs(t), Abs(u), Abs(m));
  }

  lemma InverseNonzero(x: nat, y: nat, z: nat, w: nat)
    requires w > 1 && (x * z == y * w + 1 || y * w == x * z + 1)
    ensures x > 0
  {
    if x == 0 {
      MulPos(y, w);
      PositiveFactor(y, w);
      MulLe(w, 1, y);
    }
  }

  lemma InverseSmall(x: nat, y: nat, z: nat, w: nat)
    requires w > 1 && z > 0 && x * z <= 1 + y * w && (2 * x <= w || 2 * y <= z)
    ensures x < w
  {
    if x >= w {
      MulLe(w, 2 * y, z);
      MulLe(z, w, x);
      SmallProduct(z, w);
    }
  }

  lemma SmallProduct(z: nat, w: nat)
    requires z > 0 && w > 1 && z * w <= 2
    ensures z == 1 && w == 2
  {
    MulLe(z, 2, w);
    MulLe(w, 1, z);
  }

  lemma AbsProduct(a: int, b: int)
    ensures Abs(a * b) == Abs(a) * Abs(b)
  {
    if a < 0 {
      if b < 0 { assert (-a) * (-b) == a * b; MulPos(-a, -b); } else { assert (-a) * b == -(a * b); MulPos(-a, b); }
    } else {
      if b < 0 { assert a * (-b) == -(a * b); MulPos(a, -b); } else { MulPos(a, b); }
    }
  }

  lemma InverseResidue(u: int, m: int, s: int, t: int)
    requires Abs(m) > 1 && 1 == s * u + t * m
    ensures (s * u) % Abs(m) == 1 && ((s + Abs(m)) * u) % Abs(m) == 1
  {
    hide Abs;
    var k := if m < 0 then t else -t;
    SignedTimes(k, t, m);
    ShiftedFactor(s, Abs(m), u);
    ResidueOne(s * u, k, Abs(m), u);
  }

  lemma ResidueOne(x: int, k: int, w: nat, u: int)
    requires w > 1 && x == 1 + k * w
    ensures x % w == 1 && (x + u * w) % w == 1
  {
    ModPlusMultiple(1, k, w);
    ModPlusMultiple(x, u, w);
  }

  lemma SignedTimes(k: int, t: int, m: int)
    requires k == if m < 0 then t else -t
    ensures k * Abs(m) == -(t * m)
  {
  }

  lemma ShiftedFactor(s: int, w: int, u: int)
    ensures (s + w) * u == s * u + u * w
  {
  }
}
