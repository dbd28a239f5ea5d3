/** ecc.c: reduction modulo the order of the curve, by Barrett's method. */
module ModOrder {
  import opened Arith
  import opened Numerals
  import opened Words
  import opened FieldOps

  const ORDER: nat := 0xFFFFFFFF00000000FFFFFFFFFFFFFFFFBCE6FAADA7179E84F3B9CAC2FC632551
  const MU: nat := 0x100000000FFFFFFFFFFFFFFFEFFFFFFFF43190552DF1A6C21012FFD85EEDF9BFE

  const ORDER_M: seq<Word> := [0xFC632551, 0xF3B9CAC2, 0xA7179E84, 0xBCE6FAAD, 0xFFFFFFFF, 0xFFFFFFFF, 0x00000000, 0xFFFFFFFF, 0x00000000]
  const ORDER_MU: seq<Word> := [0xEEDF9BFE, 0x012FFD85, 0xDF1A6C21, 0x43190552, 0xFFFFFFFF, 0xFFFFFFFE, 0xFFFFFFFF, 0x00000000, 0x00000001]

  const W7: nat := 0x1_0000000000000000_0000000000000000_0000000000000000_00000000

  lemma Constants()
    ensures V(ORDER_M) == ORDER && V(ORDER_M[..8]) == ORDER && V(ORDER_MU) == MU
  {
    hide Val;
    Expand8(ORDER_M[..8]);
    Expand8(ORDER_MU[..8]);
    Ninth(ORDER_M);
    Ninth(ORDER_MU);
  }

  /** The quotient that Barrett's method estimates. */
  function Quotient(a: nat): nat {
    (a / W7) * MU / W9
  }

  /** The estimate is at most two too small. */
  lemma QuotientClose(a: nat)
    requires a < W8 * W8
    ensures 0 <= a - Quotient(a) * ORDER < 3 * ORDER
  {
    var a1, a0 := a / W7, a % W7;
    var q2 := a1 * MU;
    var q3, f := q2 / W9, q2 % W9;
    assert W8 * W8 == MU * ORDER + W8 * W8 % ORDER;
    Estimate(a, a1, a0, q2, q3, f);
  }

  lemma Estimate(a: nat, a1: nat, a0: nat, q2: nat, q3: nat, f: nat)
    requires a == a1 * W7 + a0 && a0 < W7 && a1 < W9
    requires q2 == a1 * MU && q2 == q3 * W9 + f && f < W9
    ensures 0 <= a - q3 * ORDER < 3 * ORDER
  {
    var e: nat := W8 * W8 - MU * ORDER;
    assert (a - q3 * ORDER) * W9 == a0 * W9 + a1 * e + f * ORDER;
    MulLe(e, a1, W9);
  }

  /** Nothing is lost by cutting the quotient to eight words while a < n * 2^256. */
  lemma QuotientFits(a: nat)
    requires a < ORDER * W8
    ensures Quotient(a) < W8
  {
    QuotientClose(a);
  }

  /** From 2^512 - 1 on down there are numbers of sixteen words for which it does not fit. */
  lemma QuotientOverflows()
    ensures Quotient(W8 * W8 - 1) >= W8
  {
  }

  /** The quotient cut to eight words. */
  function CutQuotient(a: nat): nat {
    if Quotient(a) < W8 then Quotient(a) else Quotient(a) - W8
  }

  lemma CutQuotientFits(a: nat)
    requires a < W8 * W8
    ensures CutQuotient(a) < W8 && CutQuotient(a) == Quotient(a) % W8
  {
    QuotientClose(a);
  }

  /** What the nine-word subtraction leaves. */
  function Remainder(a: nat): int {
    a - Quotient(a) * ORDER + if Quotient(a) < W8 then 0 else W8 * (ORDER % WORD_BASE)
  }

  /** e is what a ninth word adds when only eight belong to the number. */
  lemma SubtractionExact(a: nat, e: nat, s: nat, d: nat, x: nat, y: nat, i: nat, j: nat)
    requires a < W8 * W8 && s < W9 && d <= 1 && (e == 0 || (a < W8 && e <= W9 - W8))
    requires a + e == x + W9 * i && CutQuotient(a) * ORDER == y + W9 * j
    requires s - d * W9 == x - y
    ensures s == Remainder(a) + e && Remainder(a) >= 0
  {
    hide Quotient;
    QuotientClose(a);
    var r := Remainder(a) + e;
    var t: int := if Quotient(a) < W8 then 0 else ORDER / WORD_BASE;
    assert 0 <= r < W9;
    assert s - r == W9 * (d - i + j + t);
  }

  /** The quotient's eight words are enough exactly when the remainder is right. */
  lemma RemainderRight(a: nat)
    requires a < W8 * W8
    ensures 0 <= Remainder(a) < W9
    ensures Remainder(a) % ORDER == a % ORDER <==> Quotient(a) < W8
    ensures Quotient(a) < W8 ==> Remainder(a) < 3 * ORDER
  {
    QuotientClose(a);
    var r := a - Quotient(a) * ORDER;
    ModPlusMultiple(r, Quotient(a), ORDER);
    if Quotient(a) >= W8 {
      Displaced(r);
    }
  }

  /** Adding the displacement always changes the residue. */
  lemma Displaced(r: nat)
    requires r < 3 * ORDER
    ensures (r + W8 * (ORDER % WORD_BASE)) % ORDER != r % ORDER
  {
    assert (W8 * (ORDER % WORD_BASE)) % ORDER != 0;
    OtherResidue(r, W8 * (ORDER % WORD_BASE), ORDER);
  }

  lemma OtherResidue(r: int, k: int, n: nat)
    requires n > 0 && k % n != 0
    ensures (r + k) % n != r % n
  {
    var a, b := r / n, (r + k) / n;
    if (r + k) % n == r % n {
      assert k == (b - a) * n;
      ModPlusMultiple(0, b - a, n);
    }
  }

  // ---- fieldModO ----

  lemma CutWords(s: seq<Word>, n: nat) returns (i: nat)
    requires n <= |s|
    ensures V(s) == V(s[..n]) + Pow(WORD_BASE, n) * i
  {
    ValSplit(WORD_BASE, s, n);
    i := V(s[n..]);
  }

  /** The words of s from shift on are its value shifted down. */
  lemma ShiftedValue(s: seq<Word>, t: seq<Word>, shift: nat)
    requires shift <= |s| && |s| - shift <= |t|
    requires forall i :: 0 <= i < |t| ==> t[i] == if i + shift < |s| then s[i + shift] else 0
    ensures V(s) == V(s[..shift]) + Pow(WORD_BASE, shift) * V(t)
  {
    hide Val, Pow;
    ValSplit(WORD_BASE, s, shift);
    var n := |s| - shift;
    assert t[..n] == s[shift..];
    ValSplit(WORD_BASE, t, n);
    ZeroValue(t[n..]);
  }

  lemma FirstShift(A: seq<Word>, q1: seq<Word>)
    requires 8 <= |A| <= 16 && |q1| == 9
    requires forall i :: 0 <= i < 9 ==> q1[i] == if i + 7 < |A| then A[i + 7] else 0
    ensures V(A) < W8 * W8 && V(q1) == V(A) / W7
  {
    hide Val, Pow;
    ShiftedValue(A, q1, 7);
    SmallPowers();
    VBound(A[..7]);
    DivModUnique(V(A), W7, V(q1), V(A[..7]));
    VBound(A);
    PowMono(WORD_BASE, |A|, 16);
    PowAdd(WORD_BASE, 8, 8);
    WordPowers();
  }

  lemma SecondShift(a: nat, q2: seq<Word>, q3: seq<Word>)
    requires a < W8 * W8 && |q2| == 18 && |q3| == 8 && V(q2) == (a / W7) * MU
    requires forall i :: 0 <= i < 8 ==> q3[i] == q2[i + 9]
    ensures V(q3) == CutQuotient(a)
  {
    hide Val, Pow;
    WordPowers();
    ValSplit(WORD_BASE, q2, 9);
    VBound(q2[..9]);
    DivModUnique(V(q2), W9, V(q2[9..]), V(q2[..9]));
    Ninth(q2[9..]);
    assert q2[9..][..8] == q3;
    VSmall(q3);
    CutQuotientFits(a);
    DivModUnique(Quotient(a), W8, q2[17], V(q3));
  }

  /** The nine-word difference, for the low words of a number and of a product. */
  lemma Subtracted(a: nat, e: nat, A: seq<Word>, t: seq<Word>, r: seq<Word>, d: nat)
    requires |A| >= 9 && |t| >= 9 && |r| == 9 && a < W8 * W8 && (e == 0 || (a < W8 && e <= W9 - W8))
    requires V(A) == a + e && V(t) == CutQuotient(a) * ORDER && IsDifference(r, A[..9], t[..9], d)
    ensures V(r) == Remainder(a) + e
  {
    hide Val, Pow, CutQuotient, Remainder;
    WordPowers();
    var i := CutWords(A, 9);
    var j := CutWords(t, 9);
    VSmall(r);
    SubtractionExact(a, e, V(r), d, V(A[..9]), V(t[..9]), i, j);
  }

  /** The words that the subtraction reads: a number of eight words with the word behind it. */
  function WordsRead(A: seq<Word>, length: nat): seq<Word>
    requires 8 <= length <= |A| && 9 <= |A|
  {
    if length == 8 then A[..9] else A[..length]
  }

  /** Reduces the number in the first `length` words of A modulo the order. An eight-word number
      not above the order is only copied. Otherwise the words read are reduced, rightly exactly
      when the quotient fits in eight words; when no word is read too many, the loop at the end
      then runs at most twice. */
  method FieldModO(A: seq<Word>, length: nat, result: array<Word>) returns (ghost rounds: nat)
    requires 8 <= length <= 16 && length <= |A| && 9 <= |A| && result.Length >= 9
    modifies result
    ensures var a, read := V(A[..length]), V(WordsRead(A, length));
      if length == 8 && a <= ORDER then result[..8] == A[..8]
      else V(result[..9]) < ORDER && (V(result[..9]) == read % ORDER <==> Quotient(a) < W8)
    ensures Quotient(V(A[..length])) < W8 && V(WordsRead(A, length)) == V(A[..length]) ==> rounds <= 2
  {
    hide Val, Pow, Quotient, IsDifference, CutQuotient, Remainder;
    Constants();
    rounds := 0;
    if length == 8 {
      var c := IsGreater(A[..8], ORDER_M[..8]);
      if c <= 0 {
        Copy(A[..8], result);
        return;
      }
    }
    ghost var a := V(A[..length]);
    var q1 := new Word[9];
    RShiftBy(A[..length], q1, 7);
    FirstShift(A[..length], q1[..]);
    var q2 := new Word[18];
    FieldMult(ORDER_MU, q1[..], q2);
    MulOrder(MU, a / W7);
    var q3 := new Word[8];
    RShiftBy(q2[..], q3, 9);
    SecondShift(a, q2[..], q3[..]);
    var tmp := new Word[16];
    FieldMult(q3[..], ORDER_M[..8], tmp);
    ghost var e := NinthWord(A, length);
    var d := Sub(A[..9], tmp[..9], result, 0);
    assert result[0..9] == result[..9];
    Subtracted(a, e, WordsRead(A, length), tmp[..], result[..9], d);
    RemainderRight(a);
    SameShift(a, e);
    rounds := CorrectionLoop(result, a, e);
  }

  /** What the word behind an eight-word number adds to it. */
  lemma NinthWord(A: seq<Word>, length: nat) returns (e: nat)
    requires 8 <= length <= |A| && 9 <= |A|
    ensures V(WordsRead(A, length)) == V(A[..length]) + e && WordsRead(A, length)[..9] == A[..9]
    ensures e == if length == 8 then A[8] * W8 else 0
    ensures e == 0 || (V(A[..length]) < W8 && e <= W9 - W8)
  {
    hide Val, Pow;
    e := 0;
    if length == 8 {
      Ninth(A[..9]);
      assert A[..9][..8] == A[..8];
      VSmall(A[..8]);
      e := A[8] * W8;
    }
  }

  /** The eight words alone are reduced rightly exactly when the word behind them is zero. */
  lemma NinthWordCounts(a: nat, w: Word)
    ensures (a + w * W8) % ORDER == a % ORDER <==> w == 0
  {
    if w > 0 {
      var rest := w * (W8 - ORDER);
      assert w * W8 == w * ORDER + rest && 0 < rest < ORDER;
      DivModUnique(w * W8, ORDER, w, rest);
      OtherResidue(a, w * W8, ORDER);
    }
  }

  lemma SameShift(a: nat, e: nat)
    requires a < W8 * W8
    ensures (Remainder(a) + e) % ORDER == (a + e) % ORDER <==> Remainder(a) % ORDER == a % ORDER
  {
    hide Quotient, Remainder;
    ResidueShift(Remainder(a), a, e, ORDER);
  }

  lemma ResidueShift(x: int, y: int, e: int, n: nat)
    requires n > 0
    ensures (x + e) % n == (y + e) % n <==> x % n == y % n
  {
    DivModIdentity(x, n);
    DivModIdentity(y, n);
    DivModIdentity(x + e, n);
    DivModIdentity(y + e, n);
    if x % n == y % n {
      assert (x / n - y / n) * n == (x / n) * n - (y / n) * n;
      ModPlusMultiple(y + e, x / n - y / n, n);
    } else if (x + e) % n == (y + e) % n {
      var k := (x + e) / n - (y + e) / n;
      assert k * n == ((x + e) / n) * n - ((y + e) / n) * n;
      ModPlusMultiple(y, k, n);
    }
  }

  lemma MulOrder(x: int, y: int)
    ensures x * y == y * x
  {
  }

  /** Subtracts the order until the number is below it. */
  method CorrectionLoop(result: array<Word>, ghost a: nat, ghost e: nat) returns (ghost rounds: nat)
    requires result.Length >= 9 && a < W8 * W8 && V(result[..9]) == Remainder(a) + e
    requires (Remainder(a) + e) % ORDER == (a + e) % ORDER <==> Quotient(a) < W8
    requires Quotient(a) < W8 ==> Remainder(a) < 3 * ORDER
    modifies result
    ensures V(result[..9]) < ORDER && (V(result[..9]) == (a + e) % ORDER <==> Quotient(a) < W8)
    ensures Quotient(a) < W8 && e == 0 ==> rounds <= 2
  {
    hide Val, Pow, Quotient, Remainder;
    Constants();
    rounds := 0;
    var c := IsGreater(result[..9], ORDER_M);
    while c >= 0
      invariant c == if V(result[..9]) > ORDER then 1 else if V(result[..9]) == ORDER then 0 else -1
      invariant V(result[..9]) + rounds * ORDER == Remainder(a) + e
      decreases V(result[..9])
    {
      ghost var was := result[..9];
      var d := Sub(result[..9], ORDER_M, result, 0);
      assert result[0..9] == result[..9];
      OneLess(was, result[..9], d);
      rounds := rounds + 1;
      c := IsGreater(result[..9], ORDER_M);
    }
    ModPlusMultiple(V(result[..9]), rounds, ORDER);
    DivModUnique(V(result[..9]), ORDER, 0, V(result[..9]));
  }

  lemma OneLess(was: seq<Word>, r: seq<Word>, d: nat)
    requires |was| == |r| == 9 && V(was) >= ORDER && IsDifference(r, was, ORDER_M, d)
    ensures V(r) == V(was) - ORDER
  {
    hide Val, Pow;
    Constants();
    WordPowers();
    VSmall(r);
  }
}
