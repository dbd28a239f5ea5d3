/** ecc.c: halving, and the binary inversion of a field element. */
module FieldInverse {
  import opened Numerals
  import opened Congruence
  import opened Words
  import opened FieldOps
  import Gcd

  // ---- rshift ----

  lemma ParityOf(s: seq<Word>)
    requires s != []
    ensures V(s) % 2 == s[0] % 2
  {
    hide Val;
    ValCons(WORD_BASE, s[0], s[1..]);
    assert s == [s[0]] + s[1..];
  }

  lemma ShiftRound(olds: seq<Word>, news: seq<Word>, a: Word, nOld: nat)
    requires nOld <= 1 && V(olds) == 2 * V(news) + nOld
    ensures a / 2 + nOld * 0x8000_0000 < WORD_BASE
    ensures V([a] + olds) == 2 * V([a / 2 + nOld * 0x8000_0000] + news) + a % 2
  {
    hide Val;
    ValCons(WORD_BASE, a, olds);
    ValCons(WORD_BASE, a / 2 + nOld * 0x8000_0000, news);
  }

  /** Halves the number, dropping its lowest bit. */
  method RShift(A: array<Word>)
    requires A.Length == LENGTH
    modifies A
    ensures V(A[..]) == old(V(A[..])) / 2
  {
    hide Val;
    ghost var was := A[..];
    var nOld, i := 0, LENGTH;
    ZeroValue(was[8..]);
    ZeroValue(A[8..]);
    while i > 0
      invariant 0 <= i <= LENGTH && 0 <= nOld <= 1
      invariant A[..i] == was[..i] && V(was[i..]) == 2 * V(A[i..]) + nOld
    {
      i := i - 1;
      var n := A[i] % 2;
      ghost var olds, news := was[i + 1..], A[i + 1..];
      ShiftRound(olds, news, A[i], nOld);
      assert was[i..] == [was[i]] + olds;
      A[i] := A[i] / 2 + nOld * 0x8000_0000;
      assert A[i..] == [A[i]] + news;
      nOld := n;
    }
    assert was[0..] == was && A[0..] == A[..];
  }

  // ---- fieldAddAndDivide ----

  /** (x + m) / 2, less m when the sum had a carry and the half is still above m. */
  function AddAndHalve(x: nat, m: nat): nat {
    var h := (x + m) / 2;
    if x + m >= W8 && h > m then h - m else h
  }

  lemma TopBit(s: seq<Word>)
    requires |s| == 8 && V(s) < W8 / 2
    ensures s[7] < 0x8000_0000 && V(s[7 := s[7] + 0x8000_0000]) == V(s) + W8 / 2
  {
    hide Val;
    Expand8(s);
    Expand8(s[7 := if s[7] < 0x8000_0000 then s[7] + 0x8000_0000 else 0]);
  }

  method FieldAddAndDivide(x: seq<Word>, modulus: seq<Word>, reducer: seq<Word>, result: array<Word>)
    requires |x| == |modulus| == |reducer| == LENGTH == result.Length
    requires V(reducer) == W8 - V(modulus)
    modifies result
    ensures V(result[..]) == AddAndHalve(V(x), V(modulus))
  {
    hide Val, Pow;
    WordPowers();
    var n := Add(x, modulus, result, 0);
    assert result[0..LENGTH] == result[..];
    VSmall(result[..]);
    VSmall(x);
    VSmall(modulus);
    RShift(result);
    if n != 0 {
      ghost var was := result[..];
      TopBit(was);
      result[7] := result[7] + 0x8000_0000;
      assert result[..] == was[7 := was[7] + 0x8000_0000];
      var c := IsGreater(result[..], modulus);
      if c == 1 {
        var tempas := new Word[8](_ => 0);
        var d := Add(result[..], reducer, tempas, 0);
        assert tempas[0..LENGTH] == tempas[..];
        VSmall(tempas[..]);
        VSmall(result[..]);
        Copy(tempas[..], result);
        assert result[..] == tempas[..];
      }
    }
  }

  // ---- what the steps keep ----

  lemma CoprimeHalf(u: nat, w: nat)
    requires Gcd.Coprime(u, w) && u % 2 == 0
    ensures Gcd.Coprime(u / 2, w)
  {
    Gcd.DividesBy(1, u / 2, u / 2);
    forall c: nat | Gcd.DividesInt(c, u / 2) && Gcd.DividesInt(c, w)
      ensures Gcd.DividesInt(c, 1)
    {
      Gcd.DividesCombination(c, u / 2, w, 2, 0);
    }
  }

  lemma CoprimeLess(u: nat, w: nat)
    requires Gcd.Coprime(u, w) && u >= w
    ensures Gcd.Coprime(u - w, w)
  {
    Gcd.DividesBy(1, u - w, u - w);
    forall c: nat | Gcd.DividesInt(c, u - w) && Gcd.DividesInt(c, w)
      ensures Gcd.DividesInt(c, 1)
    {
      Gcd.DividesCombination(c, u - w, w, 1, 1);
    }
  }

  lemma CoprimeSwap(u: nat, w: nat)
    requires Gcd.Coprime(u, w)
    ensures Gcd.Coprime(w, u)
  {
  }

  lemma TwoIsNoUnit()
    ensures !Gcd.DividesInt(2, 1)
  {
    assert forall k: int :: Gcd.Times(k, 2) != 1;
  }

  /** Coprime numbers are not both even, and equal ones are both 1. */
  lemma CoprimeFacts(u: nat, w: nat)
    requires Gcd.Coprime(u, w)
    ensures u % 2 == 1 || w % 2 == 1
    ensures u == w ==> u == 1
    ensures u == 0 ==> w == 1
  {
    TwoIsNoUnit();
    if u % 2 == 0 && w % 2 == 0 {
      Gcd.DividesBy(2, u, u / 2);
      Gcd.DividesBy(2, w, w / 2);
      assert false;
    }
    Gcd.DividesBy(u, u, 1);
    Gcd.DividesBy(1, u, u);
    if u == w {
      Gcd.MutualDivisors(u, 1);
    }
    if u == 0 {
      Gcd.DividesBy(w, u, 0);
      Gcd.DividesBy(w, w, 1);
      Gcd.DividesBy(1, w, w);
      Gcd.MutualDivisors(w, 1);
    }
  }

  /** Two cancels modulo an odd number. */
  lemma CongHalf(s: int, t: int, m: nat)
    requires m % 2 == 1 && Cong(2 * s, 2 * t, m)
    ensures Cong(s, t, m)
  {
    hide Cong;
    var k := CongQuotient(2 * s, 2 * t, m);
    EvenMultiple(k, m, s - t);
    assert k == 2 * (k / 2);
    assert (2 * (k / 2)) * m == 2 * ((k / 2) * m);
    CongBy(s, t, k / 2, m);
  }

  lemma EvenMultiple(k: int, m: int, d: int)
    requires m % 2 == 1 && k * m == 2 * d
    ensures k % 2 == 0
  {
    var i, j := k / 2, m / 2;
    assert m == 2 * j + 1;
    assert k * m == 2 * (k * j) + k;
  }

  /** x stands for u: a * x is u modulo m. */
  ghost predicate Represents(a: nat, x: nat, u: nat, m: nat) {
    m > 0 && x < m && Cong(a * x, u, m)
  }

  lemma HalveEven(a: nat, x: nat, u: nat, m: nat)
    requires Represents(a, x, u, m) && m % 2 == 1 && u % 2 == 0 && x % 2 == 0
    ensures Represents(a, x / 2, u / 2, m)
  {
    hide Cong;
    DoubleProduct(a, x / 2);
    CongHalf(a * (x / 2), u / 2, m);
  }

  lemma DoubleProduct(a: int, h: int)
    ensures 2 * (a * h) == a * (2 * h)
  {
  }

  lemma HalveOdd(a: nat, x: nat, u: nat, m: nat)
    requires Represents(a, x, u, m) && m % 2 == 1 && u % 2 == 0 && x % 2 == 1
    ensures AddAndHalve(x, m) == (x + m) / 2 && Represents(a, AddAndHalve(x, m), u / 2, m)
  {
    hide Cong, AddAndHalve;
    var h := (x + m) / 2;
    OddHalf(x, m);
    WholeProduct(a, x, m, h);
    CongBy(2 * (a * h), a * x, a, m);
    CongTrans(2 * (a * h), a * x, u, m);
    CongHalf(a * h, u / 2, m);
  }

  lemma OddHalf(x: nat, m: nat)
    requires x < m && x % 2 == 1 && m % 2 == 1
    ensures AddAndHalve(x, m) == (x + m) / 2 < m && x + m == 2 * ((x + m) / 2)
  {
  }

  lemma WholeProduct(a: int, x: int, m: int, h: int)
    requires x + m == 2 * h
    ensures 2 * (a * h) == a * x + a * m
  {
    assert a * (2 * h) == a * (x + m);
  }

  lemma Subtract(a: nat, x: nat, y: nat, u: nat, w: nat, m: nat)
    requires Represents(a, x, u, m) && Represents(a, y, w, m) && u >= w && m <= W8
    ensures Represents(a, SubThenReduce(x, y, m), u - w, m)
  {
    hide Cong, SubThenReduce;
    SubReduces(x, y, m);
    CongAdd(a * x, u, a * y, w, m);
    var z, b: nat := SubThenReduce(x, y, m), if x >= y then 0 else 1;
    SubtractProduct(a, x, y, b, m);
    CongBy(a * z, a * x - a * y, a * b, m);
    CongTrans(a * z, a * x - a * y, u - w, m);
  }

  lemma SubtractProduct(a: int, x: int, y: int, b: int, m: int)
    ensures a * (x - y + b * m) == a * x - a * y + (a * b) * m
  {
  }

  // ---- fieldInv ----

  method IsOne(A: seq<Word>) returns (r: bool)
    requires |A| == LENGTH
    ensures r <==> V(A) == 1
  {
    hide Val;
    var n := 1;
    while n < 8 && A[n] == 0
      invariant 1 <= n <= 8 && forall j :: 1 <= j < n ==> A[j] == 0
    {
      n := n + 1;
    }
    Expand8(A);
    r := n == 8 && A[0] == 1;
  }

  /** While u is even: u is halved, and with it the x that stands for it. */
  method Strip(u: array<Word>, x: array<Word>, modulus: seq<Word>, reducer: seq<Word>, ghost a: nat, ghost w: nat)
    requires u.Length == x.Length == LENGTH == |modulus| == |reducer| && u != x
    requires V(reducer) == W8 - V(modulus) && V(modulus) % 2 == 1
    requires V(u[..]) > 0 && Represents(a, V(x[..]), V(u[..]), V(modulus)) && Gcd.Coprime(V(u[..]), w)
    modifies u, x
    ensures V(u[..]) % 2 == 1 && V(u[..]) <= old(V(u[..])) && (old(V(u[..])) % 2 == 1 ==> V(u[..]) == old(V(u[..])))
    ensures Represents(a, V(x[..]), V(u[..]), V(modulus)) && Gcd.Coprime(V(u[..]), w)
  {
    hide Val, Represents, AddAndHalve, Gcd.Coprime;
    ParityOf(u[..]);
    while u[0] % 2 == 0
      invariant V(u[..]) > 0 && V(u[..]) <= old(V(u[..])) && (old(V(u[..])) % 2 == 1 ==> V(u[..]) == old(V(u[..])))
      invariant V(u[..]) % 2 == u[0] % 2
      invariant Represents(a, V(x[..]), V(u[..]), V(modulus)) && Gcd.Coprime(V(u[..]), w)
      decreases V(u[..])
    {
      ghost var was, xwas := V(u[..]), V(x[..]);
      CoprimeHalf(was, w);
      RShift(u);
      ParityOf(u[..]);
      ParityOf(x[..]);
      if x[0] % 2 == 0 {
        HalveEven(a, xwas, was, V(modulus));
        RShift(x);
      } else {
        HalveOdd(a, xwas, was, V(modulus));
        var tempm := new Word[8];
        FieldAddAndDivide(x[..], modulus, reducer, tempm);
        Copy(tempm[..], x);
        assert x[..] == tempm[..];
      }
    }
  }

  /** u := u - w for u above w, and with it the x that stands for it. */
  method Reduce(u: array<Word>, x: array<Word>, w: seq<Word>, y: seq<Word>, diff: seq<Word>, modulus: seq<Word>, ghost a: nat)
    requires u.Length == x.Length == LENGTH == |modulus| == |w| == |y| == |diff| && u != x
    requires V(u[..]) > V(w) && V(diff) == V(u[..]) - V(w)
    requires Represents(a, V(x[..]), V(u[..]), V(modulus)) && Represents(a, V(y), V(w), V(modulus))
    requires Gcd.Coprime(V(u[..]), V(w))
    modifies u, x
    ensures V(u[..]) == old(V(u[..])) - V(w)
    ensures Represents(a, V(x[..]), V(u[..]), V(modulus)) && Gcd.Coprime(V(u[..]), V(w))
  {
    hide Val, Represents, SubThenReduce, Gcd.Coprime;
    VSmall(modulus);
    CoprimeLess(V(u[..]), V(w));
    Subtract(a, V(x[..]), V(y), V(u[..]), V(w), V(modulus));
    Copy(diff, u);
    assert u[..] == diff;
    var tempm := new Word[8];
    FieldSub(x[..], y, modulus, tempm);
    assert tempm[..8] == tempm[..];
    Copy(tempm[..], x);
    assert x[..] == tempm[..];
  }

  /** The inverse of A modulo an odd modulus, for every A coprime to it. */
  method FieldInv(A: seq<Word>, modulus: seq<Word>, reducer: seq<Word>, B: array<Word>)
    requires |A| == |modulus| == |reducer| == LENGTH == B.Length
    requires V(modulus) % 2 == 1 && V(modulus) > 1 && V(reducer) == W8 - V(modulus)
    requires Gcd.Coprime(V(A), V(modulus))
    modifies B
    ensures V(B[..]) < V(modulus) && Cong(V(A) * V(B[..]), 1, V(modulus))
  {
    hide Val, Gcd.Coprime;
    ghost var a, m := V(A), V(modulus);
    var u, v, x1, x2 := new Word[8], new Word[8], new Word[8](_ => 0), new Word[8](_ => 0);
    Copy(A, u);
    Copy(modulus, v);
    assert u[..] == A && v[..] == modulus;
    x1[0] := 1;
    StartValues(x1[..], x2[..], a, m);
    CoprimeFacts(a, m);
    var uOne := IsOne(u[..]);
    var vOne := IsOne(v[..]);
    while !uOne && !vOne
      invariant uOne == (V(u[..]) == 1) && vOne == (V(v[..]) == 1)
      invariant V(u[..]) > 0 && V(v[..]) > 0 && Gcd.Coprime(V(u[..]), V(v[..]))
      invariant Represents(a, V(x1[..]), V(u[..]), m) && Represents(a, V(x2[..]), V(v[..]), m)
      decreases V(u[..]) + V(v[..])
    {
      InvRound(u, v, x1, x2, modulus, reducer, a);
      uOne := IsOne(u[..]);
      vOne := IsOne(v[..]);
    }
    if uOne {
      Copy(x1[..], B);
      assert B[..] == x1[..];
    } else {
      Copy(x2[..], B);
      assert B[..] == x2[..];
    }
  }

  lemma StartValues(x1: seq<Word>, x2: seq<Word>, a: nat, m: nat)
    requires |x1| == |x2| == 8 && x1[0] == 1 && (forall i :: 1 <= i < 8 ==> x1[i] == 0) && (forall i :: 0 <= i < 8 ==> x2[i] == 0)
    requires m > 1
    ensures Represents(a, V(x1), a, m) && Represents(a, V(x2), m, m)
  {
    hide Val, Cong;
    Expand8(x1);
    ZeroValue(x2);
    CongRefl(a, m);
    CongBy(0, m, -1, m);
  }

  /** One round: both are made odd, then the smaller is taken off the larger. */
  method InvRound(u: array<Word>, v: array<Word>, x1: array<Word>, x2: array<Word>,
                  modulus: seq<Word>, reducer: seq<Word>, ghost a: nat)
    requires u.Length == v.Length == x1.Length == x2.Length == LENGTH == |modulus| == |reducer|
    requires u != v && u != x1 && u != x2 && v != x1 && v != x2 && x1 != x2
    requires V(reducer) == W8 - V(modulus) && V(modulus) % 2 == 1
    requires V(u[..]) > 1 && V(v[..]) > 1 && Gcd.Coprime(V(u[..]), V(v[..]))
    requires Represents(a, V(x1[..]), V(u[..]), V(modulus)) && Represents(a, V(x2[..]), V(v[..]), V(modulus))
    modifies u, v, x1, x2
    ensures V(u[..]) > 0 && V(v[..]) > 0 && V(u[..]) + V(v[..]) < old(V(u[..]) + V(v[..]))
    ensures Gcd.Coprime(V(u[..]), V(v[..]))
    ensures Represents(a, V(x1[..]), V(u[..]), V(modulus)) && Represents(a, V(x2[..]), V(v[..]), V(modulus))
  {
    hide Val, Represents, Gcd.Coprime;
    CoprimeFacts(V(u[..]), V(v[..]));
    Strip(u, x1, modulus, reducer, a, V(v[..]));
    CoprimeSwap(V(u[..]), V(v[..]));
    Strip(v, x2, modulus, reducer, a, V(u[..]));
    CoprimeSwap(V(v[..]), V(u[..]));
    CoprimeFacts(V(u[..]), V(v[..]));
    var tempm := new Word[8];
    var t := Sub(u[..], v[..], tempm, 0);
    assert tempm[0..LENGTH] == tempm[..];
    Difference(tempm[..], u[..], v[..], t);
    if t == 0 {
      Reduce(u, x1, v[..], x2[..], tempm[..], modulus, a);
    } else {
      var t' := Sub(v[..], u[..], tempm, 0);
      assert tempm[0..LENGTH] == tempm[..];
      Difference(tempm[..], v[..], u[..], t');
      Reduce(v, x2, u[..], x1[..], tempm[..], modulus, a);
      CoprimeSwap(V(v[..]), V(u[..]));
    }
  }

  lemma Difference(r: seq<Word>, x: seq<Word>, y: seq<Word>, d: nat)
    requires |r| == |x| == |y| == 8 && IsDifference(r, x, y, d)
    ensures (d == 0 <==> V(x) >= V(y)) && (d == 0 ==> V(r) == V(x) - V(y))
  {
    hide Val, Pow;
    WordPowers();
    VSmall(r);
    VSmall(x);
    VSmall(y);
  }

  // ---- without an inverse the loop does not end ----

  /** An assignment to u or v in the loop. */
  predicate Assigns(u: nat, v: nat, u': nat, v': nat) {
    || (u % 2 == 0 && u' == u / 2 && v' == v)
    || (v % 2 == 0 && u' == u && v' == v / 2)
    || (u >= v && u' == u - v && v' == v)
    || (u < v && u' == u && v' == v - u)
  }

  /** The values of u and v from the start of the loop on, for any number of assignments. */
  ghost predicate Trace(a: nat, m: nat, us: seq<nat>, vs: seq<nat>) {
    && |us| == |vs| > 0 && us[0] == a && vs[0] == m
    && forall j :: 0 <= j < |us| - 1 ==> Assigns(us[j], vs[j], us[j + 1], vs[j + 1])
  }

  /** FieldInv returns for coprime a and m; for all others, neither u nor v ever becomes 1. */
  lemma NeverOne(a: nat, m: nat, us: seq<nat>, vs: seq<nat>)
    requires m % 2 == 1 && !Gcd.Coprime(a, m) && Trace(a, m, us, vs)
    ensures forall i :: 0 <= i < |us| ==> us[i] != 1 && vs[i] != 1
  {
    var e := CommonFactor(a, m);
    forall i | 0 <= i < |us|
      ensures us[i] != 1 && vs[i] != 1
    {
      FactorStays(e, a, m, us, vs, i);
      NotFactorOfOne(e);
    }
  }

  lemma CommonFactor(a: nat, m: nat) returns (e: nat)
    requires m % 2 == 1 && !Gcd.Coprime(a, m)
    ensures e > 1 && e % 2 == 1 && Gcd.DividesInt(e, a) && Gcd.DividesInt(e, m)
  {
    Gcd.DividesBy(1, a, a);
    Gcd.DividesBy(1, m, m);
    e :| Gcd.DividesInt(e, a) && Gcd.DividesInt(e, m) && !Gcd.DividesInt(e, 1);
    Gcd.DividesBy(1, 1, 1);
    OddFactor(e, m);
  }

  lemma ProductParts(k: int, e: int, g: int, f: int, p: int, q: int)
    requires k == 2 * g + p && e == 2 * f + q && (p == 0 || p == 1)
    ensures k * e == 2 * (g * e + p * f) + p * q
  {
    assert (2 * g + p) * e == 2 * (g * e) + p * e;
  }

  lemma ParityOfProduct(k: int, e: int)
    ensures (k * e) % 2 == (k % 2) * (e % 2)
    ensures k % 2 == 0 ==> (k * e) / 2 == k / 2 * e
  {
    var g, p := k / 2, k % 2;
    ProductParts(k, e, g, e / 2, p, e % 2);
  }

  lemma OddFactor(e: nat, m: nat)
    requires m % 2 == 1 && Gcd.DividesInt(e, m)
    ensures e % 2 == 1
  {
    var k: int :| m == Gcd.Times(k, e);
    ParityOfProduct(k, e);
  }

  lemma NotFactorOfOne(e: nat)
    requires e > 1
    ensures !Gcd.DividesInt(e, 1)
  {
    forall k: int
      ensures Gcd.Times(k, e) != 1
    {
      ProductNotOne(k, e);
    }
  }

  lemma ProductNotOne(k: int, e: nat)
    requires e > 1
    ensures k * e != 1
  {
    assert k >= 1 ==> k * e >= e;
    assert k <= 0 ==> k * e <= 0;
  }

  lemma HalfKeepsFactor(e: nat, u: nat)
    requires e % 2 == 1 && u % 2 == 0 && Gcd.DividesInt(e, u)
    ensures Gcd.DividesInt(e, u / 2)
  {
    var k: int :| u == Gcd.Times(k, e);
    ParityOfProduct(k, e);
    Gcd.DividesBy(e, u / 2, k / 2);
  }

  lemma {:induction false} FactorStays(e: nat, a: nat, m: nat, us: seq<nat>, vs: seq<nat>, i: nat)
    requires e % 2 == 1 && Gcd.DividesInt(e, a) && Gcd.DividesInt(e, m) && Trace(a, m, us, vs) && i < |us|
    ensures Gcd.DividesInt(e, us[i]) && Gcd.DividesInt(e, vs[i])
  {
    hide Gcd.DividesInt;
    if i > 0 {
      FactorStays(e, a, m, us, vs, i - 1);
      var u, v := us[i - 1], vs[i - 1];
      assert Assigns(u, v, us[i - 1 + 1], vs[i - 1 + 1]);
      Gcd.DividesCombination(e, u, v, 1, -1);
      Gcd.DividesCombination(e, u, v, -1, 1);
      if u % 2 == 0 {
        HalfKeepsFactor(e, u);
      }
      if v % 2 == 0 {
        HalfKeepsFactor(e, v);
      }
    }
  }
}
