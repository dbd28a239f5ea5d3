/** ecc.c: doubling and adding points keeps them on the curve y^2 = x^3 - 3x + b. */
module Curve {
  import opened Arith
  import opened Numerals
  import opened Congruence
  import opened Words
  import opened FieldOps
  import opened FieldInverse
  import opened ModPrime
  import Gcd

  // ---- the algebra, over the integers ----

  function Cubic(b: int, x: int): int { x * x * x - 3 * x + b }

  /** The curve's equation along the line y = l x - m. */
  function OnLine(b: int, l: int, m: int, x: int): int {
    Cubic(b, x) - (l * x - m) * (l * x - m)
  }

  function Slope(l: int, m: int, x1: int, x2: int, x3: int): int {
    2 * (l * m) - 3 - (x1 * x2 + (x1 + x2) * x3)
  }

  function Offset(b: int, m: int, x1: int, x2: int, x3: int): int {
    b - m * m + (x1 * x2) * x3
  }

  lemma ExpandCubic(x: int, x1: int, x2: int, x3: int)
    ensures (x - x1) * (x - x2) * (x - x3)
      == x * x * x - (x1 + x2 + x3) * (x * x) + (x1 * x2 + (x1 + x2) * x3) * x - (x1 * x2) * x3
  {
    assert (x - x1) * (x - x2) == x * x - (x1 + x2) * x + x1 * x2;
    ExpandQuadratic(x, x1 + x2, x1 * x2, x3);
  }

  lemma ExpandQuadratic(x: int, s: int, t: int, z: int)
    ensures (x * x - s * x + t) * (x - z) == x * x * x - (s + z) * (x * x) + (t + s * z) * x - t * z
  {
    assert (x * x - s * x + t) * (x - z) == (x * x - s * x + t) * x - (x * x - s * x + t) * z;
    assert (x * x - s * x + t) * x == x * x * x - s * (x * x) + t * x;
    assert (x * x - s * x + t) * z == z * (x * x) - (s * z) * x + t * z;
  }

  lemma ExpandSquare(l: int, m: int, x: int)
    ensures (l * x - m) * (l * x - m) == (l * l) * (x * x) - 2 * (l * m) * x + m * m
  {
    assert (l * x) * (l * x) == (l * l) * (x * x);
    assert (l * x) * m == (l * m) * x;
  }

  /** A line meets the cubic in points whose x add up to the square of its slope. */
  lemma LineMeetsCubic(b: int, l: int, m: int, x1: int, x2: int, x3: int, x: int)
    requires x1 + x2 + x3 == l * l
    ensures OnLine(b, l, m, x)
      == (x - x1) * (x - x2) * (x - x3) + Slope(l, m, x1, x2, x3) * x + Offset(b, m, x1, x2, x3)
  {
    ExpandCubic(x, x1, x2, x3);
    ExpandSquare(l, m, x);
    LineSum(l * l, l * m, x1 * x2 + (x1 + x2) * x3, x, x * x);
  }

  lemma LineSum(s: int, lm: int, t: int, x: int, xx: int)
    ensures s * xx - 2 * lm * x + (2 * lm - 3 - t) * x + t * x == s * xx - 3 * x
  {
  }

  /** The third point, from the other two. */
  lemma ThirdPoint(b: int, l: int, m: int, x1: int, x2: int, x3: int)
    requires x1 + x2 + x3 == l * l
    ensures (x1 - x2) * OnLine(b, l, m, x3) == OnLine(b, l, m, x1) * (x3 - x2) - OnLine(b, l, m, x2) * (x3 - x1)
    ensures OnLine(b, l, m, x3) == OnLine(b, l, m, x1) + Slope(l, m, x1, x2, x3) * (x3 - x1)
  {
    hide OnLine, Slope, Offset;
    var s, o := Slope(l, m, x1, x2, x3), Offset(b, m, x1, x2, x3);
    LineMeetsCubic(b, l, m, x1, x2, x3, x1);
    LineMeetsCubic(b, l, m, x1, x2, x3, x2);
    LineMeetsCubic(b, l, m, x1, x2, x3, x3);
    ZeroFactors(x1, x2, x3);
    Interpolate(s, o, x1, x2, x3);
  }

  lemma ZeroFactors(x1: int, x2: int, x3: int)
    ensures (x1 - x1) * (x1 - x2) * (x1 - x3) == 0
    ensures (x2 - x1) * (x2 - x2) * (x2 - x3) == 0
    ensures (x3 - x1) * (x3 - x2) * (x3 - x3) == 0
  {
  }

  lemma Interpolate(s: int, o: int, x1: int, x2: int, x3: int)
    ensures (x1 - x2) * (s * x3 + o) == (s * x1 + o) * (x3 - x2) - (s * x2 + o) * (x3 - x1)
    ensures s * x3 + o == s * x1 + o + s * (x3 - x1)
  {
    assert (x1 - x2) * (s * x3 + o) == s * (x1 * x3) - s * (x2 * x3) + x1 * o - x2 * o;
    assert (s * x1 + o) * (x3 - x2) == s * (x1 * x3) - s * (x1 * x2) + o * x3 - o * x2;
    assert (s * x2 + o) * (x3 - x1) == s * (x2 * x3) - s * (x1 * x2) + o * x3 - o * x1;
  }

  // ---- modulo the prime ----

  ghost predicate OnCurve(b: int, x: int, y: int) {
    Cong(y * y, Cubic(b, x), PRIME)
  }

  /** (sx, -sy) is the third point of the line with slope l through (px, py) and (qx, qy). */
  ghost predicate ChordResult(px: int, py: int, qx: int, qy: int, sx: int, sy: int, l: int) {
    Cong(l * (px - qx), py - qy, PRIME) && Cong(sx, l * l - px - qx, PRIME) && Cong(sy, l * (px - sx) - py, PRIME)
  }

  /** The same with the tangent at (x, y). */
  ghost predicate TangentResult(x: int, y: int, dx: int, dy: int, l: int) {
    Cong(2 * (l * y), 3 * (x * x) - 3, PRIME) && Cong(dx, l * l - x - x, PRIME) && Cong(dy, l * (x - dx) - y, PRIME)
  }

  lemma CongCubic(b: int, x: int, x': int)
    requires Cong(x, x', PRIME)
    ensures Cong(Cubic(b, x), Cubic(b, x'), PRIME)
  {
    hide Cong;
    CongMul(x, x', x, x', PRIME);
    CongMul(x * x, x' * x', x, x', PRIME);
    CongScale(x, x', 3, PRIME);
    CongRefl(b, PRIME);
    CongAdd(x * x * x, x' * x' * x', 3 * x, 3 * x', PRIME);
    CongAdd(x * x * x - 3 * x, x' * x' * x' - 3 * x', b, b, PRIME);
  }

  /** A point on the curve is a zero of OnLine for any line through it. */
  lemma ZeroAt(b: int, l: int, m: int, x: int, y: int)
    requires OnCurve(b, x, y) && Cong(l * x - m, y, PRIME)
    ensures Cong(OnLine(b, l, m, x), 0, PRIME)
  {
    hide Cong;
    var t := l * x - m;
    CongMul(t, y, t, y, PRIME);
    CongTrans(t * t, y * y, Cubic(b, x), PRIME);
    CongRefl(Cubic(b, x), PRIME);
    CongAdd(Cubic(b, x), Cubic(b, x), t * t, Cubic(b, x), PRIME);
  }

  /** A zero of OnLine gives a point on the curve. */
  lemma PointAt(b: int, l: int, x: int, y: int, x3: int, sx: int, sy: int)
    requires Cong(OnLine(b, l, l * x - y, x3), 0, PRIME)
    requires Cong(sx, x3, PRIME) && Cong(sy, l * (x - sx) - y, PRIME)
    ensures OnCurve(b, sx, sy)
  {
    hide Cong;
    var t := l * x3 - (l * x - y);
    CongRefl(x, PRIME);
    CongRefl(y, PRIME);
    CongAdd(x, x, sx, x3, PRIME);
    CongScale(x - sx, x - x3, l, PRIME);
    CongAdd(l * (x - sx), l * (x - x3), y, y, PRIME);
    CongTrans(sy, l * (x - sx) - y, l * (x - x3) - y, PRIME);
    assert l * (x - x3) - y == 0 - t;
    CongMul(sy, 0 - t, sy, 0 - t, PRIME);
    NegativeSquare(t);
    CongRefl(t * t, PRIME);
    CongAdd(OnLine(b, l, l * x - y, x3), 0, t * t, t * t, PRIME);
    CongSwap(Cubic(b, x3), t * t, PRIME);
    CongTrans(sy * sy, t * t, Cubic(b, x3), PRIME);
    CongSwap(sx, x3, PRIME);
    CongCubic(b, x3, sx);
    CongTrans(sy * sy, Cubic(b, x3), Cubic(b, sx), PRIME);
  }

  lemma NegativeSquare(t: int)
    ensures (0 - t) * (0 - t) == t * t
  {
  }

  lemma CancelUnit(d: int, inv: int, n: int)
    requires Cong(d * inv, 1, PRIME) && Cong(d * n, 0, PRIME)
    ensures Cong(n, 0, PRIME)
  {
    hide Cong;
    CongScale(d * inv, 1, n, PRIME);
    CongScale(d * n, 0, inv, PRIME);
    CancelUnitProducts(d, inv, n);
    CongSwap(n * (d * inv), n, PRIME);
    CongTrans(n, n * (d * inv), 0, PRIME);
  }

  lemma CancelUnitProducts(d: int, inv: int, n: int)
    ensures n * (d * inv) == inv * (d * n) && n * 1 == n && inv * 0 == 0
  {
  }

  /** Adding two points of the curve whose x differ by a unit gives a point of the curve. */
  lemma ChordOnCurve(b: int, px: int, py: int, qx: int, qy: int, sx: int, sy: int, l: int, inv: int)
    requires OnCurve(b, px, py) && OnCurve(b, qx, qy) && Cong((px - qx) * inv, 1, PRIME)
    requires ChordResult(px, py, qx, qy, sx, sy, l)
    ensures OnCurve(b, sx, sy)
  {
    hide Cong, OnLine;
    var m, x3 := l * px - py, l * l - px - qx;
    CongRefl(py, PRIME);
    ZeroAt(b, l, m, px, py);
    CongAdd(py, py, l * (px - qx), py - qy, PRIME);
    assert l * qx - m == py - l * (px - qx);
    ZeroAt(b, l, m, qx, qy);
    ThirdPoint(b, l, m, px, qx, x3);
    var f, g := OnLine(b, l, m, px), OnLine(b, l, m, qx);
    CongScale(f, 0, x3 - qx, PRIME);
    CongScale(g, 0, x3 - px, PRIME);
    CongAdd(f * (x3 - qx), 0 * (x3 - qx), g * (x3 - px), 0 * (x3 - px), PRIME);
    CancelUnit(px - qx, inv, OnLine(b, l, m, x3));
    PointAt(b, l, px, py, x3, sx, sy);
  }

  /** Doubling a point of the curve gives a point of the curve. */
  lemma TangentOnCurve(b: int, x: int, y: int, dx: int, dy: int, l: int)
    requires OnCurve(b, x, y) && TangentResult(x, y, dx, dy, l)
    ensures OnCurve(b, dx, dy)
  {
    hide Cong, OnLine;
    var m, x3 := l * x - y, l * l - x - x;
    CongRefl(y, PRIME);
    ZeroAt(b, l, m, x, y);
    ThirdPoint(b, l, m, x, x, x3);
    SlopeAtTangent(l, x, y);
    var s := Slope(l, m, x, x, x3);
    CongRefl(3 * (x * x) - 3, PRIME);
    CongAdd(3 * (x * x) - 3, 3 * (x * x) - 3, 2 * (l * y), 3 * (x * x) - 3, PRIME);
    CongScale(s, 0, x3 - x, PRIME);
    CongAdd(OnLine(b, l, m, x), 0, s * (x3 - x), 0 * (x3 - x), PRIME);
    PointAt(b, l, x, y, x3, dx, dy);
  }

  lemma SlopeAtTangent(l: int, x: int, y: int)
    ensures Slope(l, l * x - y, x, x, l * l - x - x) == 3 * (x * x) - 3 - 2 * (l * y)
  {
    assert l * (l * x - y) == (l * l) * x - l * y;
    assert (x + x) * (l * l - x - x) == 2 * ((l * l) * x) - 4 * (x * x);
  }

  // ---- what fieldMult and fieldModP compute, on values ----

  function ToWords(n: nat, k: nat): (s: seq<Word>)
    ensures |s| == k
  {
    if k == 0 then [] else [n % WORD_BASE] + ToWords(n / WORD_BASE, k - 1)
  }

  lemma {:induction false} WordsOfValue(s: seq<Word>)
    ensures ToWords(V(s), |s|) == s
  {
    if s != [] {
      ValCons(WORD_BASE, s[0], s[1..]);
      assert s == [s[0]] + s[1..];
      DivModUnique(V(s), WORD_BASE, V(s[1..]), s[0]);
      WordsOfValue(s[1..]);
    }
  }

  lemma {:induction false} ToWordsValue(n: nat, k: nat)
    requires n < Pow(WORD_BASE, k)
    ensures V(ToWords(n, k)) == n
  {
    if k > 0 {
      ToWordsValue(n / WORD_BASE, k - 1);
      ValCons(WORD_BASE, n % WORD_BASE, ToWords(n / WORD_BASE, k - 1));
    }
  }

  /** The sixteen words of a product. */
  function ProductWords(x: nat, y: nat): Double {
    MulPos(x, y);
    ToWords(x * y, 16)
  }

  /** The product after fieldModP, which need not be the product modulo the prime. */
  ghost function Mul(x: nat, y: nat): (z: nat)
    ensures z < PRIME
  {
    ResidueIffBalanced(ProductWords(x, y));
    Final(Reduction(ProductWords(x, y)).value)
  }

  /** The reduction of this product loses as many carries as borrows. */
  ghost predicate Exact(x: nat, y: nat) {
    Balanced(ProductWords(x, y))
  }

  /** Exactly then is it the product modulo the prime. */
  lemma MulIffExact(x: nat, y: nat)
    requires x < W8 && y < W8
    ensures Mul(x, y) == x * y % PRIME <==> Exact(x, y)
  {
    hide Reduction, Final, Balanced, ToWords;
    MulPos(x, y);
    MulLe(W8, y, W8);
    MulLe(y, x, W8);
    SixteenWords();
    ToWordsValue(x * y, 16);
    ResidueIffBalanced(ProductWords(x, y));
  }

  lemma SixteenWords()
    ensures Pow(WORD_BASE, 16) == W8 * W8
  {
    hide Pow;
    WordPowers();
    PowAdd(WORD_BASE, 8, 8);
  }

  /** How many more carries than borrows the reduction of this product loses. */
  ghost function Lost(x: nat, y: nat): int {
    var c := Reduction(ProductWords(x, y));
    c.carries - c.borrows
  }

  /** Each of them shifts the product by 2^256 modulo the prime. */
  lemma MulStands(x: nat, y: nat)
    requires x < W8 && y < W8
    ensures Cong(Mul(x, y) + Lost(x, y) * REDUCER, x * y, PRIME)
    ensures Exact(x, y) <==> Lost(x, y) == 0
  {
    hide Reduction, ToWords, Val, Cong;
    MulPos(x, y);
    MulLe(W8, y, W8);
    MulLe(y, x, W8);
    SixteenWords();
    ToWordsValue(x * y, 16);
    ReductionStands(ProductWords(x, y));
    var c, k := Reduction(ProductWords(x, y)), Lost(x, y);
    CongBy(Mul(x, y) + k * REDUCER, c.value + k * REDUCER, if c.value >= PRIME then -1 else 0, PRIME);
    CongTrans(Mul(x, y) + k * REDUCER, c.value + k * REDUCER, x * y, PRIME);
  }

  lemma MulCong(x: nat, y: nat, x': int, y': int)
    requires x < W8 && y < W8 && Cong(x, x', PRIME) && Cong(y, y', PRIME)
    ensures Cong(Mul(x, y), x' * y', PRIME) <==> Exact(x, y)
  {
    hide Cong, Mul, Exact;
    MulIffExact(x, y);
    CongMod(x * y, PRIME);
    CongMul(x, x', y, y', PRIME);
    if Exact(x, y) {
      CongTrans(Mul(x, y), x * y, x' * y', PRIME);
    }
    if Cong(Mul(x, y), x' * y', PRIME) {
      CongSwap(x * y, x' * y', PRIME);
      CongTrans(Mul(x, y), x' * y', x * y, PRIME);
      CongSwap(x * y % PRIME, x * y, PRIME);
      CongTrans(Mul(x, y), x * y, x * y % PRIME, PRIME);
      CongSmall(Mul(x, y), x * y % PRIME, PRIME);
    }
  }

  function Minus(x: nat, y: nat): (z: nat)
    requires x < PRIME && y < PRIME
    ensures z < PRIME && (z == x - y || z == x - y + PRIME)
  {
    SubReduces(x, y, PRIME);
    SubThenReduce(x, y, PRIME)
  }

  lemma MinusCong(x: nat, y: nat, x': int, y': int)
    requires x < PRIME && y < PRIME && Cong(x, x', PRIME) && Cong(y, y', PRIME)
    ensures Cong(Minus(x, y), x' - y', PRIME)
  {
    hide Cong, Minus;
    CongAdd(x, x', y, y', PRIME);
    CongBy(Minus(x, y), x - y, if Minus(x, y) == x - y then 0 else 1, PRIME);
    CongTrans(Minus(x, y), x - y, x' - y', PRIME);
  }

  function Twice(y: nat): nat {
    AddThenReduce(y, y, REDUCER)
  }

  lemma TwiceCong(y: nat)
    requires y < PRIME
    ensures Twice(y) < W8 && Cong(Twice(y), 2 * y, PRIME)
  {
    AddReduces(y, y, PRIME);
    CongBy(Twice(y), 2 * y, if Twice(y) == 2 * y then 0 else -1, PRIME);
  }

  // ---- the points that ec_double and ec_add compute, on values ----

  ghost function Numerator(x: nat): (n: nat)
    ensures n < PRIME
  {
    Mul(Minus(Mul(x, x), 1), 3)
  }

  ghost function TangentSlope(x: nat, inv: nat): (l: nat)
    ensures l < PRIME
  {
    Mul(Numerator(x), inv)
  }

  /** What the three reductions on the way to the slope lose, weighted as it reaches the slope. */
  ghost function SlopeLoss(x: nat, y: nat, inv: nat): int {
    3 * Lost(x, x) + Lost(Minus(Mul(x, x), 1), 3) + 2 * (Lost(Numerator(x), inv) * y)
  }

  /** The three reductions are exact, or what they lose cancels. */
  ghost predicate LossesCancel(x: nat, y: nat, inv: nat) {
    Cong(SlopeLoss(x, y, inv), 0, PRIME)
  }

  lemma ExactSlope(x: nat, y: nat, inv: nat)
    requires x < PRIME && inv < PRIME && Exact(x, x) && Exact(Minus(Mul(x, x), 1), 3) && Exact(Numerator(x), inv)
    ensures LossesCancel(x, y, inv)
  {
    hide Cong, Mul, Minus, Exact, Lost;
    MulStands(x, x);
    MulStands(Minus(Mul(x, x), 1), 3);
    MulStands(Numerator(x), inv);
    assert 0 * y == 0;
    CongRefl(0, PRIME);
  }

  ghost function ChordSlope(px: nat, py: nat, qx: nat, qy: nat, inv: nat): (l: nat)
    requires px < PRIME && py < PRIME && qx < PRIME && qy < PRIME
    ensures l < PRIME
  {
    Mul(Minus(py, qy), inv)
  }

  ghost function ThirdX(l: nat, px: nat, qx: nat): (x: nat)
    requires px < PRIME && qx < PRIME
    ensures x < PRIME
  {
    Minus(Minus(Mul(l, l), px), qx)
  }

  /** The y under x3, on the line through (x, y). */
  ghost function ThirdY(l: nat, x: nat, y: nat, x3: nat): (z: nat)
    requires x < PRIME && y < PRIME && x3 < PRIME
    ensures z < PRIME
  {
    Minus(Mul(l, Minus(x, x3)), y)
  }

  ghost predicate ThirdExact(l: nat, x: nat, x3: nat)
    requires x < PRIME && x3 < PRIME
  {
    Exact(l, l) && Exact(l, Minus(x, x3))
  }

  /** The numerator, but for what its two reductions lose. */
  lemma NumeratorStands(x: nat)
    requires x < PRIME
    ensures Cong(Numerator(x) + (3 * Lost(x, x) + Lost(Minus(Mul(x, x), 1), 3)) * REDUCER, 3 * (x * x) - 3, PRIME)
  {
    hide Cong, Mul, Minus, Exact, Lost;
    var square := Mul(x, x);
    var m, n := Minus(square, 1), Numerator(x);
    MulStands(x, x);
    MulStands(m, 3);
    CongRefl(square, PRIME);
    CongRefl(1, PRIME);
    MinusCong(square, 1, square, 1);
    var i := CongQuotient(square + Lost(x, x) * REDUCER, x * x, PRIME);
    var j := CongQuotient(m, square - 1, PRIME);
    var k := CongQuotient(n + Lost(m, 3) * REDUCER, m * 3, PRIME);
    CongBy(n + (3 * Lost(x, x) + Lost(m, 3)) * REDUCER, 3 * (x * x) - 3, 3 * i + 3 * j + k, PRIME);
  }

  /** Dividing by d, up to what the reduction loses. */
  lemma QuotientStands(n: nat, d: int, d': int, inv: nat)
    requires n < PRIME && inv < PRIME && Cong(d * inv, 1, PRIME) && Cong(d, d', PRIME)
    ensures Cong((Mul(n, inv) + Lost(n, inv) * REDUCER) * d', n, PRIME)
  {
    hide Cong, Mul, Exact, Lost;
    var l := Mul(n, inv) + Lost(n, inv) * REDUCER;
    MulStands(n, inv);
    CongScale(l, n * inv, d, PRIME);
    CongScale(d * inv, 1, n, PRIME);
    assert (n * inv) * d == n * (d * inv);
    CongTrans(l * d, n * (d * inv), n, PRIME);
    CongScale(d, d', l, PRIME);
    CongSwap(l * d, l * d', PRIME);
    CongTrans(l * d', l * d, n, PRIME);
  }

  lemma CongDifference(a: int, b: int, t: int)
    requires Cong(a + b, t, PRIME)
    ensures Cong(a, t, PRIME) <==> Cong(b, 0, PRIME)
  {
    hide Cong;
    CongRefl(t, PRIME);
    if Cong(a, t, PRIME) {
      CongAdd(a + b, t, a, t, PRIME);
    }
    if Cong(b, 0, PRIME) {
      CongAdd(a + b, t, b, 0, PRIME);
    }
  }

  lemma CongReplace(a: int, c: int, d: int, e: int)
    requires Cong(a, c - e, PRIME)
    ensures Cong(a, d - e, PRIME) <==> Cong(c, d, PRIME)
  {
    hide Cong;
    CongRefl(e, PRIME);
    if Cong(a, d - e, PRIME) {
      CongSwap(a, c - e, PRIME);
      CongTrans(c - e, a, d - e, PRIME);
      CongAdd(c - e, d - e, e, e, PRIME);
    }
    if Cong(c, d, PRIME) {
      CongAdd(c, d, e, e, PRIME);
      CongTrans(a, c - e, d - e, PRIME);
    }
  }

  /** 2^256 is a unit modulo the prime. */
  lemma ShiftIsUnit(k: int)
    ensures Cong(k * REDUCER, 0, PRIME) <==> Cong(k, 0, PRIME)
  {
    hide Cong;
    var inv := 0xFFFFFFFE00000003FFFFFFFD0000000200000001FFFFFFFE0000000300000000;
    CongBy(REDUCER * inv, 1, 0xFFFFFFFE00000002FFFFFFFDFFFFFFFF00000001FFFFFFFD00000001, PRIME);
    if Cong(k * REDUCER, 0, PRIME) {
      assert k * REDUCER == REDUCER * k;
      CancelUnit(REDUCER, inv, k);
    }
    if Cong(k, 0, PRIME) {
      CongScale(k, 0, REDUCER, PRIME);
    }
  }

  /** The slope is the tangent's exactly when what is lost on the way cancels. */
  lemma SlopeIff(x: nat, y: nat, inv: nat)
    requires x < PRIME && y < PRIME && inv < PRIME && Cong(Twice(y) * inv, 1, PRIME)
    ensures Cong(2 * (TangentSlope(x, inv) * y), 3 * (x * x) - 3, PRIME) <==> LossesCancel(x, y, inv)
  {
    hide Cong, Mul, Minus, Exact, Lost, Numerator, Twice;
    var l, n, t := TangentSlope(x, inv), Numerator(x), 3 * (x * x) - 3;
    var front, last := 3 * Lost(x, x) + Lost(Minus(Mul(x, x), 1), 3), Lost(n, inv);
    NumeratorStands(x);
    TwiceCong(y);
    QuotientStands(n, Twice(y), 2 * y, inv);
    SlopeTerms(l, last, front, y);
    CongRefl(front * REDUCER, PRIME);
    CongAdd((l + last * REDUCER) * (2 * y), n, front * REDUCER, front * REDUCER, PRIME);
    CongTrans((l + last * REDUCER) * (2 * y) + front * REDUCER, n + front * REDUCER, t, PRIME);
    CongDifference(2 * (l * y), SlopeLoss(x, y, inv) * REDUCER, t);
    ShiftIsUnit(SlopeLoss(x, y, inv));
  }

  lemma SlopeTerms(l: int, last: int, front: int, y: int)
    ensures (l + last * REDUCER) * (2 * y) + front * REDUCER == 2 * (l * y) + (front + 2 * (last * y)) * REDUCER
  {
    assert (l + last * REDUCER) * (2 * y) == 2 * (l * y) + 2 * ((last * REDUCER) * y);
    assert (last * REDUCER) * y == (last * y) * REDUCER;
  }

  /** The third point is right exactly when both reductions are exact. */
  lemma ThirdIff(l: nat, px: nat, qx: nat, x: nat, y: nat)
    requires l < PRIME && px < PRIME && qx < PRIME && x < PRIME && y < PRIME
    ensures var x3 := ThirdX(l, px, qx);
      Cong(x3, l * l - px - qx, PRIME) && Cong(ThirdY(l, x, y, x3), l * (x - x3) - y, PRIME) <==> ThirdExact(l, x, x3)
  {
    hide Cong, Mul, Minus, Exact;
    var x3, square := ThirdX(l, px, qx), Mul(l, l);
    var run := Minus(x, x3);
    CongRefl(l, PRIME);
    CongRefl(px, PRIME);
    CongRefl(qx, PRIME);
    CongRefl(x, PRIME);
    CongRefl(y, PRIME);
    CongRefl(x3, PRIME);
    CongRefl(square, PRIME);
    CongRefl(Mul(l, run), PRIME);
    MinusCong(square, px, square, px);
    MinusCong(Minus(square, px), qx, square - px, qx);
    CongReplace(x3, square, l * l, px + qx);
    MulCong(l, l, l, l);
    MinusCong(x, x3, x, x3);
    MulCong(l, run, l, x - x3);
    MinusCong(Mul(l, run), y, Mul(l, run), y);
    CongReplace(ThirdY(l, x, y, x3), Mul(l, run), l * (x - x3), y);
  }

  /** Doubling gives the tangent's point exactly when what is lost on the way to the slope
      cancels and the two later reductions are exact. */
  lemma DoubleIsTangent(x: nat, y: nat, inv: nat)
    requires x < PRIME && y < PRIME && inv < PRIME && Cong(Twice(y) * inv, 1, PRIME)
    ensures var l := TangentSlope(x, inv); var x3 := ThirdX(l, x, x);
      TangentResult(x, y, x3, ThirdY(l, x, y, x3), l) <==> LossesCancel(x, y, inv) && ThirdExact(l, x, x3)
  {
    hide Cong, TangentSlope, LossesCancel, ThirdExact, ThirdX, ThirdY, Twice;
    var l := TangentSlope(x, inv);
    SlopeIff(x, y, inv);
    ThirdIff(l, x, x, x, y);
  }

  /** Adding points with different x gives the chord's point exactly when all three reductions
      are exact. The code computes y from q; it is the same line seen from p. */
  lemma AddIsChord(px: nat, py: nat, qx: nat, qy: nat, inv: nat)
    requires px < PRIME && py < PRIME && qx < PRIME && qy < PRIME && inv < PRIME && Cong(Minus(px, qx) * inv, 1, PRIME)
    ensures var l := ChordSlope(px, py, qx, qy, inv); var x3 := ThirdX(l, px, qx);
      ChordResult(px, py, qx, qy, x3, ThirdY(l, qx, qy, x3), l) <==> Exact(Minus(py, qy), inv) && ThirdExact(l, qx, x3)
  {
    hide Cong, Exact, ChordSlope, ThirdExact, ThirdX, ThirdY, Minus;
    var l := ChordSlope(px, py, qx, qy, inv);
    var x3 := ThirdX(l, px, qx);
    var sy := ThirdY(l, qx, qy, x3);
    ChordSlopeIff(px, py, qx, qy, inv);
    ThirdIff(l, px, qx, qx, qy);
    if Cong(l * (px - qx), py - qy, PRIME) {
      if Cong(sy, l * (qx - x3) - qy, PRIME) {
        OtherView(l, px, py, qx, qy, x3, sy);
      }
      if Cong(sy, l * (px - x3) - py, PRIME) {
        Backwards(l, px, py, qx, qy);
        OtherView(l, qx, qy, px, py, x3, sy);
      }
    }
  }

  lemma ChordSlopeIff(px: nat, py: nat, qx: nat, qy: nat, inv: nat)
    requires px < PRIME && py < PRIME && qx < PRIME && qy < PRIME && inv < PRIME && Cong(Minus(px, qx) * inv, 1, PRIME)
    ensures Cong(ChordSlope(px, py, qx, qy, inv) * (px - qx), py - qy, PRIME) <==> Exact(Minus(py, qy), inv)
  {
    hide Cong, Mul, Exact, Minus;
    UnitDifference(px, qx, inv);
    CongRefl(py, PRIME);
    CongRefl(qy, PRIME);
    CongRefl(inv, PRIME);
    MinusCong(py, qy, py, qy);
    MulCong(Minus(py, qy), inv, py - qy, inv);
    UnitQuotient(ChordSlope(px, py, qx, qy, inv), px - qx, inv, py - qy);
  }

  /** Dividing by a unit is multiplying by its inverse. */
  lemma UnitQuotient(l: int, d: int, inv: int, n: int)
    requires Cong(d * inv, 1, PRIME)
    ensures Cong(l * d, n, PRIME) <==> Cong(l, n * inv, PRIME)
  {
    hide Cong;
    CongScale(d * inv, 1, l, PRIME);
    CongScale(d * inv, 1, n, PRIME);
    assert (l * d) * inv == l * (d * inv) && (n * inv) * d == n * (d * inv);
    if Cong(l * d, n, PRIME) {
      CongScale(l * d, n, inv, PRIME);
      CongSwap(l * (d * inv), l, PRIME);
      CongTrans(l, l * (d * inv), n * inv, PRIME);
    }
    if Cong(l, n * inv, PRIME) {
      CongScale(l, n * inv, d, PRIME);
      CongTrans(l * d, n * (d * inv), n, PRIME);
    }
  }

  lemma Backwards(l: int, px: int, py: int, qx: int, qy: int)
    requires Cong(l * (px - qx), py - qy, PRIME)
    ensures Cong(l * (qx - px), qy - py, PRIME)
  {
    hide Cong;
    CongScale(l * (px - qx), py - qy, -1, PRIME);
    assert (l * (px - qx)) * -1 == l * (qx - px);
  }

  lemma OtherView(l: int, px: int, py: int, qx: int, qy: int, sx: int, sy: int)
    requires Cong(l * (px - qx), py - qy, PRIME) && Cong(sy, l * (qx - sx) - qy, PRIME)
    ensures Cong(sy, l * (px - sx) - py, PRIME)
  {
    hide Cong;
    var run, rise, t := l * (px - qx), py - qy, l * (qx - sx) - qy;
    CongRefl(rise, PRIME);
    CongAdd(run, rise, rise, rise, PRIME);
    CongSwap(run - rise, 0, PRIME);
    CongAdd(sy, t, 0, run - rise, PRIME);
    SameLine(l, px, py, qx, qy, sx);
  }

  lemma SameLine(l: int, px: int, py: int, qx: int, qy: int, sx: int)
    ensures l * (qx - sx) - qy + (l * (px - qx) - (py - qy)) == l * (px - sx) - py
  {
  }

  lemma UnitDifference(px: nat, qx: nat, inv: nat)
    requires px < PRIME && qx < PRIME && Cong(Minus(px, qx) * inv, 1, PRIME)
    ensures Cong((px - qx) * inv, 1, PRIME)
  {
    hide Cong, Minus;
    CongRefl(px, PRIME);
    CongRefl(qx, PRIME);
    MinusCong(px, qx, px, qx);
    CongScale(Minus(px, qx), px - qx, inv, PRIME);
    CongSwap(Minus(px, qx) * inv, (px - qx) * inv, PRIME);
    CongTrans((px - qx) * inv, Minus(px, qx) * inv, 1, PRIME);
  }

  // ---- ec_double and ec_add ----

  method IsZero(A: seq<Word>) returns (zero: bool)
    requires |A| == LENGTH
    ensures zero <==> V(A) == 0
  {
    hide Val;
    var r := 0;
    for n := 0 to 8
      invariant 0 <= r <= n && (r == n <==> forall j :: 0 <= j < n ==> A[j] == 0)
    {
      if A[n] == 0 {
        r := r + 1;
      }
    }
    zero := r == 8;
    Expand8(A);
  }

  method MulModP(x: seq<Word>, y: seq<Word>, tempD: array<Word>, out: array<Word>)
    requires |x| == |y| == LENGTH == out.Length && tempD.Length == 16 && tempD != out
    modifies tempD, out
    ensures V(out[..]) == Mul(V(x), V(y)) < PRIME
  {
    hide Val, Reduction, Balanced, ToWords;
    FieldMult(x, y, tempD);
    WordsOfValue(tempD[..]);
    FieldModP(out, tempD[..]);
  }

  method MinusModP(x: seq<Word>, y: seq<Word>, out: array<Word>)
    requires |x| == |y| == LENGTH == out.Length && V(x) < PRIME && V(y) < PRIME
    modifies out
    ensures V(out[..]) == Minus(V(x), V(y)) < PRIME
  {
    hide Val, SubThenReduce;
    Constants();
    FieldSub(x, y, PRIME_M, out);
    assert out[..LENGTH] == out[..];
  }

  method TwiceModP(y: seq<Word>, out: array<Word>)
    requires |y| == LENGTH == out.Length
    modifies out
    ensures V(out[..]) == Twice(V(y))
  {
    hide Val, AddThenReduce;
    Constants();
    FieldAdd(y, y, PRIME_R, out);
    assert out[..LENGTH] == out[..];
  }

  method InverseModP(x: seq<Word>, out: array<Word>)
    requires |x| == LENGTH == out.Length && Gcd.Coprime(V(x), PRIME)
    modifies out
    ensures V(out[..]) < PRIME && Cong(V(x) * V(out[..]), 1, PRIME)
  {
    hide Val, Cong, Gcd.Coprime;
    Constants();
    FieldInv(x, PRIME_M, PRIME_R, out);
  }

  predicate AtInfinity(x: nat, y: nat) {
    x == 0 && y == 0
  }

  lemma SmallNumber(s: seq<Word>)
    requires |s| == LENGTH && forall i :: 1 <= i < LENGTH ==> s[i] == 0
    ensures V(s) == s[0]
  {
    Expand8(s);
  }

  /** A small number in eight words. */
  method Small(a: array<Word>, n: Word)
    requires a.Length == LENGTH
    modifies a
    ensures V(a[..]) == n
  {
    SetZero(a);
    a[0] := n;
    SmallNumber(a[..]);
  }

  /** Doubles a point; the value inverted, twice its y, must be a unit. */
  method EcDouble(px: seq<Word>, py: seq<Word>, Dx: array<Word>, Dy: array<Word>) returns (ghost inv: nat)
    requires |px| == |py| == LENGTH == Dx.Length == Dy.Length && Dx != Dy && V(px) < PRIME && V(py) < PRIME
    requires AtInfinity(V(px), V(py)) || Gcd.Coprime(Twice(V(py)), PRIME)
    modifies Dx, Dy
    ensures AtInfinity(V(px), V(py)) ==> AtInfinity(V(Dx[..]), V(Dy[..]))
    ensures !AtInfinity(V(px), V(py)) ==> inv < PRIME && Cong(Twice(V(py)) * inv, 1, PRIME)
    ensures !AtInfinity(V(px), V(py)) ==> var l := TangentSlope(V(px), inv);
      V(Dx[..]) == ThirdX(l, V(px), V(px)) && V(Dy[..]) == ThirdY(l, V(px), V(py), V(Dx[..]))
  {
    hide Val, Cong, Mul, Minus, Twice, Gcd.Coprime, TangentSlope, ThirdX, ThirdY;
    inv := 0;
    var xZero := IsZero(px);
    var yZero := IsZero(py);
    if xZero && yZero {
      Copy(px, Dx);
      Copy(py, Dy);
      assert Dx[..8] == Dx[..] == px && Dy[..8] == Dy[..] == py;
      return;
    }
    var tempB;
    tempB, inv := SlopeOfTangent(px, py);
    FinishPoint(tempB[..], px, px, px, py, Dx, Dy);
  }

  /** The first part of ec_double. */
  method SlopeOfTangent(px: seq<Word>, py: seq<Word>) returns (tempB: array<Word>, ghost inv: nat)
    requires |px| == |py| == LENGTH && V(px) < PRIME && V(py) < PRIME && Gcd.Coprime(Twice(V(py)), PRIME)
    ensures fresh(tempB) && tempB.Length == LENGTH && inv < PRIME && Cong(Twice(V(py)) * inv, 1, PRIME)
    ensures V(tempB[..]) == TangentSlope(V(px), inv)
  {
    hide Val, Cong, Mul, Minus, Twice, Gcd.Coprime;
    tempB := new Word[8];
    var tempA, tempC, tempD := new Word[8], new Word[8], new Word[16];
    MulModP(px, px, tempD, tempA);
    Small(tempB, 1);
    MinusModP(tempA[..], tempB[..], tempC);
    Small(tempB, 3);
    MulModP(tempC[..], tempB[..], tempD, tempA);
    TwiceModP(py, tempB);
    InverseModP(tempB[..], tempC);
    inv := V(tempC[..]);
    MulModP(tempA[..], tempC[..], tempD, tempB);
  }

  /** The last part of ec_double and of ec_add, once the slope l is known. */
  method FinishPoint(l: seq<Word>, px: seq<Word>, qx: seq<Word>, x: seq<Word>, y: seq<Word>, outX: array<Word>, outY: array<Word>)
    requires |l| == |px| == |qx| == |x| == |y| == LENGTH == outX.Length == outY.Length && outX != outY
    requires V(l) < PRIME && V(px) < PRIME && V(qx) < PRIME && V(x) < PRIME && V(y) < PRIME
    modifies outX, outY
    ensures V(outX[..]) == ThirdX(V(l), V(px), V(qx)) && V(outY[..]) == ThirdY(V(l), V(x), V(y), V(outX[..]))
  {
    hide Val, Mul, Minus;
    var tempA, tempC, tempD := new Word[8], new Word[8], new Word[16];
    MulModP(l, l, tempD, tempC);
    MinusModP(tempC[..], px, tempA);
    MinusModP(tempA[..], qx, outX);
    MinusModP(x, outX[..], tempA);
    MulModP(l, tempA[..], tempD, tempC);
    MinusModP(tempC[..], y, outY);
  }

  /** Adds two points. Opposite points give infinity and equal points are doubled; otherwise
      the value inverted, the difference of the x, must be a unit. */
  method EcAdd(px: seq<Word>, py: seq<Word>, qx: seq<Word>, qy: seq<Word>, Sx: array<Word>, Sy: array<Word>)
    returns (ghost inv: nat)
    requires |px| == |py| == |qx| == |qy| == LENGTH == Sx.Length == Sy.Length && Sx != Sy
    requires V(px) < PRIME && V(py) < PRIME && V(qx) < PRIME && V(qy) < PRIME
    requires AtInfinity(V(px), V(py)) || AtInfinity(V(qx), V(qy)) ||
      (if px == qx then py != qy || Gcd.Coprime(Twice(V(py)), PRIME) else Gcd.Coprime(Minus(V(px), V(qx)), PRIME))
    modifies Sx, Sy
    ensures AtInfinity(V(px), V(py)) ==> Sx[..] == qx && Sy[..] == qy
    ensures !AtInfinity(V(px), V(py)) && AtInfinity(V(qx), V(qy)) ==> Sx[..] == px && Sy[..] == py
    ensures !AtInfinity(V(px), V(py)) && !AtInfinity(V(qx), V(qy)) && px == qx && py != qy ==> AtInfinity(V(Sx[..]), V(Sy[..]))
    ensures !AtInfinity(V(px), V(py)) && !AtInfinity(V(qx), V(qy)) && px == qx && py == qy ==>
      inv < PRIME && Cong(Twice(V(py)) * inv, 1, PRIME) && var l := TangentSlope(V(px), inv);
      V(Sx[..]) == ThirdX(l, V(px), V(px)) && V(Sy[..]) == ThirdY(l, V(px), V(py), V(Sx[..]))
    ensures !AtInfinity(V(px), V(py)) && !AtInfinity(V(qx), V(qy)) && px != qx ==>
      inv < PRIME && Cong(Minus(V(px), V(qx)) * inv, 1, PRIME) && var l := ChordSlope(V(px), V(py), V(qx), V(qy), inv);
      V(Sx[..]) == ThirdX(l, V(px), V(qx)) && V(Sy[..]) == ThirdY(l, V(qx), V(qy), V(Sx[..]))
  {
    hide Val, Cong, Mul, Minus, Twice, Gcd.Coprime, TangentSlope, ChordSlope, ThirdX, ThirdY;
    inv := 0;
    var pxZero := IsZero(px);
    var pyZero := IsZero(py);
    var qxZero := IsZero(qx);
    var qyZero := IsZero(qy);
    if pxZero && pyZero {
      Copy(qx, Sx);
      Copy(qy, Sy);
      assert Sx[..8] == Sx[..] && Sy[..8] == Sy[..];
      return;
    } else if qxZero && qyZero {
      Copy(px, Sx);
      Copy(py, Sy);
      assert Sx[..8] == Sx[..] && Sy[..8] == Sy[..];
      return;
    }
    if px == qx {
      if py != qy {
        SetZero(Sx);
        SetZero(Sy);
        ZeroValue(Sx[..]);
        ZeroValue(Sy[..]);
      } else {
        inv := EcDouble(px, py, Sx, Sy);
      }
      return;
    }
    inv := AddDistinct(px, py, qx, qy, Sx, Sy);
  }

  /** The last part of ec_add. */
  method AddDistinct(px: seq<Word>, py: seq<Word>, qx: seq<Word>, qy: seq<Word>, Sx: array<Word>, Sy: array<Word>)
    returns (ghost inv: nat)
    requires |px| == |py| == |qx| == |qy| == LENGTH == Sx.Length == Sy.Length && Sx != Sy
    requires V(px) < PRIME && V(py) < PRIME && V(qx) < PRIME && V(qy) < PRIME && Gcd.Coprime(Minus(V(px), V(qx)), PRIME)
    modifies Sx, Sy
    ensures inv < PRIME && Cong(Minus(V(px), V(qx)) * inv, 1, PRIME)
    ensures var l := ChordSlope(V(px), V(py), V(qx), V(qy), inv);
      V(Sx[..]) == ThirdX(l, V(px), V(qx)) && V(Sy[..]) == ThirdY(l, V(qx), V(qy), V(Sx[..]))
  {
    hide Val, Cong, Mul, Minus, Gcd.Coprime;
    var tempA, tempB, tempC, tempD := new Word[8], new Word[8], new Word[8], new Word[16];
    MinusModP(py, qy, tempA);
    MinusModP(px, qx, tempB);
    InverseModP(tempB[..], tempB);
    inv := V(tempB[..]);
    MulModP(tempA[..], tempB[..], tempD, tempC);
    FinishPoint(tempC[..], px, qx, qx, qy, Sx, Sy);
  }

  // ---- on the curve when every reduction is exact ----

  /** The double of a point of the curve is on the curve, if it is the tangent's point. */
  lemma DoubleOnCurve(b: int, x: nat, y: nat, inv: nat)
    requires x < PRIME && y < PRIME && inv < PRIME && OnCurve(b, x, y) && Cong(Twice(y) * inv, 1, PRIME)
      && LossesCancel(x, y, inv)
    requires var l := TangentSlope(x, inv); ThirdExact(l, x, ThirdX(l, x, x))
    ensures var l := TangentSlope(x, inv); var x3 := ThirdX(l, x, x); OnCurve(b, x3, ThirdY(l, x, y, x3))
  {
    hide Cong, TangentSlope, LossesCancel, ThirdExact, ThirdX, ThirdY, Twice, OnCurve, TangentResult;
    DoubleIsTangent(x, y, inv);
    var l := TangentSlope(x, inv);
    var x3 := ThirdX(l, x, x);
    TangentOnCurve(b, x, y, x3, ThirdY(l, x, y, x3), l);
  }

  /** The sum of two points of the curve is on the curve, if it is the chord's point. */
  lemma SumOnCurve(b: int, px: nat, py: nat, qx: nat, qy: nat, inv: nat)
    requires px < PRIME && py < PRIME && qx < PRIME && qy < PRIME && inv < PRIME && OnCurve(b, px, py)
      && OnCurve(b, qx, qy)
    requires Cong(Minus(px, qx) * inv, 1, PRIME) && Exact(Minus(py, qy), inv)
    requires var l := ChordSlope(px, py, qx, qy, inv); ThirdExact(l, qx, ThirdX(l, px, qx))
    ensures var l := ChordSlope(px, py, qx, qy, inv); var x3 := ThirdX(l, px, qx); OnCurve(b, x3, ThirdY(l, qx, qy, x3))
  {
    hide Cong, ChordSlope, ThirdExact, ThirdX, ThirdY, Minus, Exact, OnCurve, ChordResult;
    AddIsChord(px, py, qx, qy, inv);
    UnitDifference(px, qx, inv);
    var l := ChordSlope(px, py, qx, qy, inv);
    var x3 := ThirdX(l, px, qx);
    ChordOnCurve(b, px, py, qx, qy, x3, ThirdY(l, qx, qy, x3), l, inv);
  }
}
