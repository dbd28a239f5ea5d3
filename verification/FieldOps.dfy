/** ecc.c: field addition, subtraction and multiplication on 256-bit numbers, with what one
    conditional correction achieves. */
module FieldOps {
  import opened Arith
  import opened Numerals
  import opened Words

  const LENGTH := 8   // arrayLength

  /** What is left of z in eight words when one carry is dropped. */
  function Wrap(z: nat): nat
  {
    if z < W8 then z else z - W8
  }

  /** fieldAdd: the reducer stands in for a carry; a second carry is lost. */
  function AddThenReduce(x: nat, y: nat, reducer: nat): nat {
    if x + y < W8 then x + y else Wrap(x + y - W8 + reducer)
  }

  /** fieldSub: the modulus is added once after a borrow, and its carry is dropped. */
  function SubThenReduce(x: nat, y: nat, modulus: nat): nat
    requires y < W8
  {
    if x >= y then x - y else Wrap(x - y + W8 + modulus)
  }

  method FieldAdd(x: seq<Word>, y: seq<Word>, reducer: seq<Word>, result: array<Word>)
    requires |x| == |y| == |reducer| == LENGTH <= result.Length
    modifies result
    ensures V(result[..LENGTH]) == AddThenReduce(V(x), V(y), V(reducer)) && result[LENGTH..] == old(result[LENGTH..])
  {
    hide Val, Pow;
    WordPowers();
    var d := Add(x, y, result, 0);
    VSmall(result[0..LENGTH]);
    VSmall(x);
    VSmall(y);
    if d != 0 {
      var tempas := new Word[8](_ => 0);
      var e := Add(result[..LENGTH], reducer, tempas, 0);
      VSmall(tempas[0..LENGTH]);
      VSmall(reducer);
      Copy(tempas[..], result);
      assert tempas[0..LENGTH] == tempas[..] == result[..LENGTH];
    }
    assert result[0..LENGTH] == result[..LENGTH];
  }

  method FieldSub(x: seq<Word>, y: seq<Word>, modulus: seq<Word>, result: array<Word>)
    requires |x| == |y| == |modulus| == LENGTH <= result.Length
    modifies result
    ensures V(y) < W8 && V(result[..LENGTH]) == SubThenReduce(V(x), V(y), V(modulus))
    ensures result[LENGTH..] == old(result[LENGTH..])
  {
    hide Val, Pow;
    WordPowers();
    VSmall(x);
    VSmall(y);
    var d := Sub(x, y, result, 0);
    VSmall(result[0..LENGTH]);
    if d != 0 {
      var tempas := new Word[8](_ => 0);
      var e := Add(result[..LENGTH], modulus, tempas, 0);
      VSmall(tempas[0..LENGTH]);
      VSmall(modulus);
      Copy(tempas[..], result);
      assert tempas[0..LENGTH] == tempas[..] == result[..LENGTH];
    }
    assert result[0..LENGTH] == result[..LENGTH];
  }

  /** For reduced operands, or any whose wrap-around is repaired by one correction, the
      results are the sum and the difference modulo m. */
  lemma AddReduces(x: nat, y: nat, m: nat)
    requires 0 < m <= W8 && x < W8 && y < W8 && x + y < W8 + m
    ensures var z := AddThenReduce(x, y, W8 - m);
      z < W8 && (z == x + y || z == x + y - m)
  {
  }

  lemma SubReduces(x: nat, y: nat, m: nat)
    requires x < m <= W8 && y < m
    ensures SubThenReduce(x, y, m) == (if x >= y then x - y else x - y + m) < m
  {
  }

  // ---- fieldMult ----

  /** The low and high word of a product of two words. */
  function MulWords(a: Word, b: Word): (r: (Word, Word))
    ensures a * b == r.0 + r.1 * WORD_BASE
  {
    var x: nat, y: nat := a, b;
    MulBound(x, y);
    SplitWords(x * y)
  }

  function SplitWords(p: nat): (r: (Word, Word))
    requires p <= (WORD_BASE - 1) * (WORD_BASE - 1)
    ensures p == r.0 + r.1 * WORD_BASE
  {
    (p % WORD_BASE, p / WORD_BASE)
  }

  lemma MulBound(a: nat, b: nat)
    requires a < WORD_BASE && b < WORD_BASE
    ensures a * b <= (WORD_BASE - 1) * (WORD_BASE - 1)
  {
    MulLe(a, b, WORD_BASE - 1);
  }

  /** Adds l, a product of two words, to the number at result + at. */
  method AddProduct(lo: Word, hi: Word, result: array<Word>, at: nat)
    requires at + 2 <= result.Length
    requires V(result[..]) + (lo + hi * WORD_BASE) * Pow(WORD_BASE, at) < Pow(WORD_BASE, result.Length)
    modifies result
    ensures V(result[..]) == old(V(result[..])) + (lo + hi * WORD_BASE) * Pow(WORD_BASE, at)
  {
    hide Val, Pow;
    var n := result.Length;
    var temp := new Word[n - at](_ => 0);
    temp[0] := lo;
    temp[1] := hi;
    TwoWords(temp[..]);
    ghost var was, front, tail := result[..], result[..at], result[at..];
    ValSplit(WORD_BASE, was, at);
    PowAdd(WORD_BASE, at, n - at);
    assert was[..at] == front && was[at..] == tail;
    var d := Add(temp[..], result[at..], result, at);
    assert result[..] == front + result[at..at + (n - at)];
    ValConcat(WORD_BASE, front, result[at..at + (n - at)]);
    CarryIsLost(V(front), V(tail), lo + hi * WORD_BASE, V(result[at..at + (n - at)]), d, Pow(WORD_BASE, at),
      Pow(WORD_BASE, n - at));
  }

  /** No carry leaves a sum that fits. */
  lemma CarryIsLost(front: nat, tail: nat, l: nat, sum: nat, d: nat, p: nat, q: nat)
    requires sum + d * q == l + tail
    requires front + p * tail + l * p < p * q && d <= 1
    ensures d == 0 && front + p * sum == front + p * tail + l * p
  {
    assert p * (sum + d * q) == p * sum + d * (p * q);
    assert p * (l + tail) == l * p + p * tail;
    MulPos(p, sum);
  }

  lemma TwoWords(s: seq<Word>)
    requires |s| >= 2 && forall i :: 2 <= i < |s| ==> s[i] == 0
    ensures V(s) == s[0] + s[1] * WORD_BASE
  {
    hide Val;
    ValCons(WORD_BASE, s[0], s[1..]);
    assert s == [s[0]] + s[1..];
    ValCons(WORD_BASE, s[1], s[2..]);
    assert s[1..] == [s[1]] + s[2..];
    ZeroValue(s[2..]);
  }

  /** What has been added up after n words of row k. */
  ghost function Partial(x: seq<Word>, y: seq<Word>, k: nat, n: nat): nat
    requires k < |y| && n <= |x|
  {
    hide Val, Pow;
    MulPos(V(x), V(y[..k]));
    MulPos(V(x[..n]), y[k]);
    MulPos(V(x[..n]) * y[k], Pow(WORD_BASE, k));
    V(x) * V(y[..k]) + V(x[..n]) * y[k] * Pow(WORD_BASE, k)
  }

  lemma RowStart(x: seq<Word>, y: seq<Word>, k: nat)
    requires k < |y|
    ensures Partial(x, y, k, 0) == V(x) * V(y[..k])
    ensures Partial(x, y, k, |x|) == V(x) * V(y[..k + 1])
  {
    hide Pow;
    assert x[..0] == [] && x[..|x|] == x;
    hide Val;
    ValTake(WORD_BASE, y, k);
    RowSum(V(x), V(y[..k]), y[k], Pow(WORD_BASE, k));
  }

  lemma RowSum(x: int, y: int, d: int, p: int)
    ensures x * y + x * d * p == x * (y + d * p)
  {
  }

  lemma RowStep(x: seq<Word>, y: seq<Word>, k: nat, n: nat)
    requires k < |y| && n < |x|
    ensures Partial(x, y, k, n + 1) == Partial(x, y, k, n) + (x[n] * y[k]) * Pow(WORD_BASE, n + k)
    ensures Partial(x, y, k, n + 1) < Pow(WORD_BASE, |x| + |y|)
  {
    hide Pow, Val;
    ValTake(WORD_BASE, x, n);
    PowAdd(WORD_BASE, n, k);
    RowStepSum(V(x[..n]), x[n], y[k], Pow(WORD_BASE, n), Pow(WORD_BASE, k));
    PartialMono(x, y, k, n + 1);
    RowStart(x, y, k);
    VBound(x);
    VBound(y);
    ValSplit(WORD_BASE, y, k + 1);
    ProductBound(V(x), V(y[..k + 1]), V(y), Pow(WORD_BASE, |x|), Pow(WORD_BASE, |y|),
      Pow(WORD_BASE, k + 1) * V(y[k + 1..]));
    PowAdd(WORD_BASE, |x|, |y|);
  }

  lemma RowStepSum(x: int, a: int, d: int, p: int, q: int)
    ensures (x + a * p) * d * q == x * d * q + (a * d) * (p * q)
  {
    assert (x + a * p) * d == x * d + (a * d) * p;
    assert ((a * d) * p) * q == (a * d) * (p * q);
  }

  lemma PartialMono(x: seq<Word>, y: seq<Word>, k: nat, n: nat)
    requires k < |y| && n <= |x|
    ensures Partial(x, y, k, n) <= Partial(x, y, k, |x|)
  {
    hide Pow, Val;
    ValSplit(WORD_BASE, x, n);
    assert x[..|x|] == x;
    MulPos(Pow(WORD_BASE, n), V(x[n..]));
    MonoStep(V(x[..n]), V(x), y[k], Pow(WORD_BASE, k));
  }

  lemma MonoStep(a: nat, b: nat, d: nat, p: nat)
    requires a <= b
    ensures a * d * p <= b * d * p
  {
    MulLe(d, a, b);
    MulLe(p, a * d, b * d);
  }

  lemma ProductBound(x: nat, y: nat, y': nat, p: nat, q: nat, rest: nat)
    requires x < p && y' < q && y' == y + rest
    ensures x * y < p * q
  {
    MulLe(x, y, q - 1);
    MulLe(q - 1, x, p - 1);
    assert (p - 1) * (q - 1) == p * q - p - q + 1;
  }

  method FieldMult(x: seq<Word>, y: seq<Word>, result: array<Word>)
    requires |x| == |y| && result.Length == 2 * |x|
    modifies result
    ensures V(result[..]) == V(x) * V(y)
  {
    hide Val, Pow, Partial;
    SetZero(result);
    ZeroValue(result[..]);
    EmptyProduct(x, y);
    for k := 0 to |y|
      invariant V(result[..]) == V(x) * V(y[..k])
    {
      RowStart(x, y, k);
      for n := 0 to |x|
        invariant V(result[..]) == Partial(x, y, k, n)
      {
        var (lo, hi) := MulWords(x[n], y[k]);
        RowStep(x, y, k, n);
        AddProduct(lo, hi, result, n + k);
      }
    }
    assert y[..|y|] == y;
  }

  lemma EmptyProduct(x: seq<Word>, y: seq<Word>)
    ensures V(x) * V(y[..0]) == 0
  {
  }
}
