/** ecc.c: numbers as arrays of 32-bit words, and the loops over them that add, subtract,
    compare and shift. */
module Words {
  import opened Arith
  import opened Numerals

  const WORD_BASE: nat := 0x1_0000_0000

  type Word = x: nat | x < 0x1_0000_0000

  ghost function V(s: seq<Word>): nat { Val(WORD_BASE, s) }

  /** WORD_BASE^8 and WORD_BASE^9, the sizes of the field's and of Barrett's numbers. */
  const W8: nat := 0x1_0000000000000000_0000000000000000_0000000000000000_0000000000000000
  const W9: nat := 0x1_0000000000000000_0000000000000000_0000000000000000_0000000000000000_00000000

  lemma WordPowers()
    ensures Pow(WORD_BASE, 8) == W8 && Pow(WORD_BASE, 9) == W9
  {
    assert Pow(WORD_BASE, 1) == WORD_BASE;
    assert Pow(WORD_BASE, 2) == 0x1_0000000000000000;
    PowAdd(WORD_BASE, 2, 2);
    PowAdd(WORD_BASE, 4, 4);
    PowAdd(WORD_BASE, 8, 1);
  }

  lemma VBound(s: seq<Word>)
    ensures V(s) < Pow(WORD_BASE, |s|)
  {
    ValBound(WORD_BASE, s);
  }

  lemma VSmall(s: seq<Word>)
    ensures |s| == 8 ==> V(s) < W8
    ensures |s| == 9 ==> V(s) < W9
  {
    VBound(s);
    WordPowers();
  }

  // ---- add ----

  /** The low word of a sum of two words and a carry, and the new carry. */
  function AddWords(x: Word, y: Word, d: nat): (r: (Word, nat))
    requires d <= 1
    ensures r.1 <= 1 && x + y + d == r.0 + r.1 * WORD_BASE
  {
    if x + y + d < WORD_BASE then (x + y + d, 0) else (x + y + d - WORD_BASE, 1)
  }

  ghost predicate IsSum(r: seq<Word>, x: seq<Word>, y: seq<Word>, d: nat) {
    d <= 1 && V(r) + d * Pow(WORD_BASE, |x|) == V(x) + V(y)
  }

  lemma SumRound(r: seq<Word>, x: seq<Word>, y: seq<Word>, d: nat, a: Word, b: Word, s: Word, d': nat)
    requires |r| == |x| == |y| && IsSum(r, x, y, d) && d' <= 1
    requires a + b + d == s + d' * WORD_BASE
    ensures IsSum(r + [s], x + [a], y + [b], d')
  {
    hide Pow;
    ValSnoc(WORD_BASE, r, s);
    ValSnoc(WORD_BASE, x, a);
    ValSnoc(WORD_BASE, y, b);
    PowStep(WORD_BASE, |x|);
    SumStep(Pow(WORD_BASE, |x|), a, b, d, s, d');
  }

  lemma SumStep(p: int, a: int, b: int, d: int, s: int, d': int)
    requires a + b + d == s + d' * WORD_BASE
    ensures s * p + d' * (WORD_BASE * p) == a * p + b * p + d * p
  {
    assert (a + b + d) * p == (s + d' * WORD_BASE) * p;
  }

  /** The sum of x and y, which result may share its words with, and the carry out. */
  method Add(x: seq<Word>, y: seq<Word>, result: array<Word>, off: nat) returns (d: Word)
    requires |x| == |y| && off + |x| <= result.Length
    modifies result
    ensures IsSum(result[off..off + |x|], x, y, d)
    ensures result[..off] == old(result[..off]) && result[off + |x|..] == old(result[off + |x|..])
  {
    hide IsSum;
    EmptySum();
    assert result[off..off] == [] && x[..0] == [] && y[..0] == [];
    d := 0;
    for v := 0 to |x|
      invariant d <= 1 && IsSum(result[off..off + v], x[..v], y[..v], d)
      invariant forall i :: 0 <= i < result.Length && !(off <= i < off + v) ==> result[i] == old(result[i])
    {
      var (s, c) := AddWords(x[v], y[v], d);
      ghost var done := result[off..off + v];
      SumRound(done, x[..v], y[..v], d, x[v], y[v], s, c);
      result[off + v], d := s, c;
      assert result[off..off + (v + 1)] == done + [s];
      assert x[..v + 1] == x[..v] + [x[v]] && y[..v + 1] == y[..v] + [y[v]];
    }
    assert x[..|x|] == x && y[..|y|] == y;
  }

  lemma EmptySum()
    ensures IsSum([], [], [], 0) && IsDifference([], [], [], 0)
  {
  }

  // ---- sub ----

  function SubWords(x: Word, y: Word, d: nat): (r: (Word, nat))
    requires d <= 1
    ensures r.1 <= 1 && x - y - d == r.0 - r.1 * WORD_BASE
  {
    if x - y - d >= 0 then (x - y - d, 0) else (x - y - d + WORD_BASE, 1)
  }

  ghost predicate IsDifference(r: seq<Word>, x: seq<Word>, y: seq<Word>, d: nat) {
    d <= 1 && V(r) - d * Pow(WORD_BASE, |x|) == V(x) - V(y)
  }

  lemma DifferenceRound(r: seq<Word>, x: seq<Word>, y: seq<Word>, d: nat, a: Word, b: Word, s: Word, d': nat)
    requires |r| == |x| == |y| && IsDifference(r, x, y, d) && d' <= 1
    requires a - b - d == s - d' * WORD_BASE
    ensures IsDifference(r + [s], x + [a], y + [b], d')
  {
    hide Pow;
    ValSnoc(WORD_BASE, r, s);
    ValSnoc(WORD_BASE, x, a);
    ValSnoc(WORD_BASE, y, b);
    PowStep(WORD_BASE, |x|);
    DifferenceStep(Pow(WORD_BASE, |x|), a, b, d, s, d');
  }

  lemma DifferenceStep(p: int, a: int, b: int, d: int, s: int, d': int)
    requires a - b - d == s - d' * WORD_BASE
    ensures s * p - d' * (WORD_BASE * p) == a * p - b * p - d * p
  {
    assert (a - b - d) * p == (s - d' * WORD_BASE) * p;
  }

  method Sub(x: seq<Word>, y: seq<Word>, result: array<Word>, off: nat) returns (d: Word)
    requires |x| == |y| && off + |x| <= result.Length
    modifies result
    ensures IsDifference(result[off..off + |x|], x, y, d)
    ensures result[..off] == old(result[..off]) && result[off + |x|..] == old(result[off + |x|..])
  {
    hide IsDifference;
    EmptySum();
    assert result[off..off] == [] && x[..0] == [] && y[..0] == [];
    d := 0;
    for v := 0 to |x|
      invariant d <= 1 && IsDifference(result[off..off + v], x[..v], y[..v], d)
      invariant forall i :: 0 <= i < result.Length && !(off <= i < off + v) ==> result[i] == old(result[i])
    {
      var (s, c) := SubWords(x[v], y[v], d);
      ghost var done := result[off..off + v];
      DifferenceRound(done, x[..v], y[..v], d, x[v], y[v], s, c);
      result[off + v], d := s, c;
      assert result[off..off + (v + 1)] == done + [s];
      assert x[..v + 1] == x[..v] + [x[v]] && y[..v + 1] == y[..v] + [y[v]];
    }
    assert x[..|x|] == x && y[..|y|] == y;
  }

  // ---- isGreater, rshiftby, copying ----

  /** 1, 0 or -1, decided by the highest word that differs. */
  method IsGreater(x: seq<Word>, y: seq<Word>) returns (r: int)
    requires |x| == |y|
    ensures r == if V(x) > V(y) then 1 else if V(x) == V(y) then 0 else -1
  {
    hide Val;
    var i := |x|;
    assert x[..i] == x && y[..i] == y;
    while i > 0
      invariant 0 <= i <= |x|
      invariant V(x) - V(y) == V(x[..i]) - V(y[..i])
    {
      ValTake(WORD_BASE, x, i - 1);
      ValTake(WORD_BASE, y, i - 1);
      if x[i - 1] > y[i - 1] {
        HighWord(x[..i - 1], y[..i - 1], x[i - 1], y[i - 1]);
        return 1;
      }
      if x[i - 1] < y[i - 1] {
        HighWord(y[..i - 1], x[..i - 1], y[i - 1], x[i - 1]);
        return -1;
      }
      i := i - 1;
    }
    assert x[..0] == y[..0];
    r := 0;
  }

  lemma HighWord(x: seq<Word>, y: seq<Word>, a: Word, b: Word)
    requires |x| == |y| && a > b
    ensures V(x) + a * Pow(WORD_BASE, |x|) > V(y) + b * Pow(WORD_BASE, |y|)
  {
    hide Val, Pow;
    VBound(y);
    HigherStep(V(x), V(y), a, b, Pow(WORD_BASE, |x|));
  }

  lemma HigherStep(v: nat, w: nat, a: nat, b: nat, p: nat)
    requires w < p && a > b
    ensures v + a * p > w + b * p
  {
    MulLe(p, b + 1, a);
    assert p * (b + 1) == p * b + p;
  }

  /** Words from shift on, padded with zeros: the value shifted down, cut to the size of out. */
  method RShiftBy(x: seq<Word>, out: array<Word>, shift: nat)
    modifies out
    ensures forall i :: 0 <= i < out.Length ==> out[i] == if i + shift < |x| then x[i + shift] else 0
  {
    var i := 0;
    while i + shift < |x| && i < out.Length
      invariant 0 <= i <= out.Length
      invariant forall j :: 0 <= j < i ==> j + shift < |x| && out[j] == x[j + shift]
    {
      out[i] := x[i + shift];
      i := i + 1;
    }
    while i < out.Length
      invariant 0 <= i <= out.Length
      invariant forall j :: 0 <= j < i ==> out[j] == if j + shift < |x| then x[j + shift] else 0
      invariant i < out.Length ==> i + shift >= |x|
    {
      out[i] := 0;
      i := i + 1;
    }
  }

  method Copy(from: seq<Word>, to: array<Word>)
    requires |from| <= to.Length
    modifies to
    ensures to[..|from|] == from && to[|from|..] == old(to[|from|..])
  {
    forall i | 0 <= i < |from| {
      to[i] := from[i];
    }
  }

  method SetZero(a: array<Word>)
    modifies a
    ensures forall i :: 0 <= i < a.Length ==> a[i] == 0
  {
    forall i | 0 <= i < a.Length {
      a[i] := 0;
    }
  }

  lemma {:induction false} ZeroValue(s: seq<Word>)
    requires forall i :: 0 <= i < |s| ==> s[i] == 0
    ensures V(s) == 0
  {
    if s != [] {
      ZeroValue(s[..|s| - 1]);
    }
  }

  // ---- eight and nine words written out ----

  const P2: nat := 0x1_0000000000000000
  const P3: nat := 0x1_0000000000000000_00000000
  const P4: nat := 0x1_0000000000000000_0000000000000000
  const P5: nat := 0x1_0000000000000000_0000000000000000_00000000
  const P6: nat := 0x1_0000000000000000_0000000000000000_0000000000000000
  const P7: nat := 0x1_0000000000000000_0000000000000000_0000000000000000_00000000

  lemma SmallPowers()
    ensures Pow(WORD_BASE, 0) == 1 && Pow(WORD_BASE, 1) == WORD_BASE && Pow(WORD_BASE, 2) == P2
      && Pow(WORD_BASE, 3) == P3
    ensures Pow(WORD_BASE, 4) == P4 && Pow(WORD_BASE, 5) == P5 && Pow(WORD_BASE, 6) == P6 && Pow(WORD_BASE, 7) == P7
  {
    assert Pow(WORD_BASE, 1) == WORD_BASE * Pow(WORD_BASE, 0);
    assert Pow(WORD_BASE, 2) == WORD_BASE * Pow(WORD_BASE, 1);
    assert Pow(WORD_BASE, 3) == WORD_BASE * Pow(WORD_BASE, 2);
    assert Pow(WORD_BASE, 4) == WORD_BASE * Pow(WORD_BASE, 3);
    assert Pow(WORD_BASE, 5) == WORD_BASE * Pow(WORD_BASE, 4);
    assert Pow(WORD_BASE, 6) == WORD_BASE * Pow(WORD_BASE, 5);
    assert Pow(WORD_BASE, 7) == WORD_BASE * Pow(WORD_BASE, 6);
  }

  lemma Expand8(s: seq<Word>)
    requires |s| == 8
    ensures V(s) == s[0] + s[1] * WORD_BASE + s[2] * P2 + s[3] * P3 + s[4] * P4 + s[5] * P5 + s[6] * P6 + s[7] * P7
  {
    hide Pow;
    SmallPowers();
    ValTake(WORD_BASE, s, 0);
    ValTake(WORD_BASE, s, 1);
    ValTake(WORD_BASE, s, 2);
    ValTake(WORD_BASE, s, 3);
    ValTake(WORD_BASE, s, 4);
    ValTake(WORD_BASE, s, 5);
    ValTake(WORD_BASE, s, 6);
    ValTake(WORD_BASE, s, 7);
    assert s[..8] == s && s[..0] == [];
  }

  lemma Ninth(s: seq<Word>)
    requires |s| == 9
    ensures V(s) == V(s[..8]) + s[8] * W8
  {
    hide Val;
    WordPowers();
    ValTake(WORD_BASE, s, 8);
    assert s[..9] == s;
  }
}
