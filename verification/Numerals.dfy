/** Little-endian digit sequences and the numbers they stand for: powers of the base,
    splitting and joining. */
module Numerals {
  import opened Arith

  function Pow(b: nat, k: nat): nat {
    if k == 0 then 1 else b * Pow(b, k - 1)
  }

  lemma PowZero(b: nat)
    ensures Pow(b, 0) == 1
  {
  }

  lemma PowStep(b: nat, k: nat)
    ensures Pow(b, k + 1) == b * Pow(b, k)
  {
  }

  /** The value of `s` read in base `b`, least significant digit first. */
  ghost function Val(b: nat, s: seq<nat>): nat {
    if s == [] then 0 else Val(b, s[..|s| - 1]) + s[|s| - 1] * Pow(b, |s| - 1)
  }

  ghost predicate Digits(b: nat, s: seq<nat>) {
    forall i :: 0 <= i < |s| ==> s[i] < b
  }

  lemma {:induction false} PowPos(b: nat, k: nat)
    requires b > 0
    ensures Pow(b, k) > 0
  {
    if k > 0 {
      PowPos(b, k - 1);
      MulPos(b, Pow(b, k - 1));
    }
  }

  lemma {:induction false} PowAdd(b: nat, m: nat, n: nat)
    ensures Pow(b, m + n) == Pow(b, m) * Pow(b, n)
  {
    if m > 0 {
      PowAdd(b, m - 1, n);
      assert Pow(b, m) * Pow(b, n) == b * (Pow(b, m - 1) * Pow(b, n));
    }
  }

  lemma {:induction false} PowMono(b: nat, m: nat, n: nat)
    requires b > 0 && m <= n
    ensures Pow(b, m) <= Pow(b, n)
  {
    if m < n {
      PowMono(b, m, n - 1);
      PowPos(b, n - 1);
      MulLe(Pow(b, n - 1), 1, b);
    }
  }

  lemma ValSnoc(b: nat, s: seq<nat>, d: nat)
    ensures Val(b, s + [d]) == Val(b, s) + d * Pow(b, |s|)
  {
    assert (s + [d])[..|s|] == s;
  }

  lemma ValTake(b: nat, s: seq<nat>, i: nat)
    requires i < |s|
    ensures Val(b, s[..i + 1]) == Val(b, s[..i]) + s[i] * Pow(b, i)
  {
    assert s[..i + 1][..i] == s[..i];
  }

  lemma TopDigit(b: nat, p: nat, v: nat, d: nat)
    requires v < p && d < b
    ensures v + d * p < b * p
  {
    MulLe(p, d + 1, b);
  }

  lemma {:induction false} ValBound(b: nat, s: seq<nat>)
    requires b > 0 && Digits(b, s)
    ensures Val(b, s) < Pow(b, |s|)
  {
    if s != [] {
      var n := |s| - 1;
      ValBound(b, s[..n]);
      TopDigit(b, Pow(b, n), Val(b, s[..n]), s[n]);
    }
  }

  lemma Scale(p: int, v: int, d: int, w: int)
    ensures p * (v + d * w) == p * v + d * (p * w)
  {
  }

  lemma {:induction false} ValConcat(b: nat, s: seq<nat>, t: seq<nat>)
    ensures Val(b, s + t) == Val(b, s) + Pow(b, |s|) * Val(b, t)
  {
    if t == [] {
      assert s + t == s;
    } else {
      var n := |t| - 1;
      ValConcat(b, s, t[..n]);
      assert s + t == (s + t[..n]) + [t[n]];
      ValSnoc(b, s + t[..n], t[n]);
      PowAdd(b, |s|, n);
      Scale(Pow(b, |s|), Val(b, t[..n]), t[n], Pow(b, n));
    }
  }

  lemma ValSplit(b: nat, s: seq<nat>, i: nat)
    requires i <= |s|
    ensures Val(b, s) == Val(b, s[..i]) + Pow(b, i) * Val(b, s[i..])
  {
    assert s == s[..i] + s[i..];
    ValConcat(b, s[..i], s[i..]);
  }

  lemma ValOne(b: nat, d: nat)
    ensures Val(b, [d]) == d
  {
    ValSnoc(b, [], d);
    assert [] + [d] == [d];
  }

  lemma ValCons(b: nat, d: nat, s: seq<nat>)
    ensures Val(b, [d] + s) == d + b * Val(b, s)
  {
    ValConcat(b, [d], s);
    ValOne(b, d);
    assert Pow(b, 1) == b * Pow(b, 0);
  }
}
