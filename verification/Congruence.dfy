/** Congruence modulo m. */
module Congruence {
  import opened Arith

  function Multiple(k: int, m: int): int { k * m }

  /** a and b differ by a multiple of m. */
  ghost predicate Cong(a: int, b: int, m: nat)
    requires m > 0
  {
    exists k: int :: a == b + Multiple(k, m)
  }

  lemma CongBy(a: int, b: int, k: int, m: nat)
    requires m > 0 && a == b + k * m
    ensures Cong(a, b, m)
  {
    assert a == b + Multiple(k, m);
  }

  lemma CongQuotient(a: int, b: int, m: nat) returns (k: int)
    requires m > 0 && Cong(a, b, m)
    ensures a == b + k * m
  {
    k :| a == b + Multiple(k, m);
  }

  lemma CongRefl(a: int, m: nat)
    requires m > 0
    ensures Cong(a, a, m)
  {
    CongBy(a, a, 0, m);
  }

  lemma CongSwap(a: int, b: int, m: nat)
    requires m > 0 && Cong(a, b, m)
    ensures Cong(b, a, m)
  {
    var k := CongQuotient(a, b, m);
    assert (0 - k) * m == 0 - k * m;
    CongBy(b, a, 0 - k, m);
  }

  lemma CongTrans(a: int, b: int, c: int, m: nat)
    requires m > 0 && Cong(a, b, m) && Cong(b, c, m)
    ensures Cong(a, c, m)
  {
    var k := CongQuotient(a, b, m);
    var l := CongQuotient(b, c, m);
    assert (k + l) * m == k * m + l * m;
    CongBy(a, c, k + l, m);
  }

  lemma CongAdd(a: int, b: int, c: int, d: int, m: nat)
    requires m > 0 && Cong(a, b, m) && Cong(c, d, m)
    ensures Cong(a + c, b + d, m) && Cong(a - c, b - d, m)
  {
    var k := CongQuotient(a, b, m);
    var l := CongQuotient(c, d, m);
    assert (k + l) * m == k * m + l * m && (k - l) * m == k * m - l * m;
    CongBy(a + c, b + d, k + l, m);
    CongBy(a - c, b - d, k - l, m);
  }

  lemma CongScale(a: int, b: int, c: int, m: nat)
    requires m > 0 && Cong(a, b, m)
    ensures Cong(a * c, b * c, m) && Cong(c * a, c * b, m)
  {
    var k := CongQuotient(a, b, m);
    assert a * c == b * c + (k * c) * m;
    CongBy(a * c, b * c, k * c, m);
  }

  lemma CongMul(a: int, b: int, c: int, d: int, m: nat)
    requires m > 0 && Cong(a, b, m) && Cong(c, d, m)
    ensures Cong(a * c, b * d, m)
  {
    CongScale(a, b, c, m);
    CongScale(c, d, b, m);
    CongTrans(a * c, b * c, b * d, m);
  }

  /** Congruent numbers are those with one residue. */
  lemma CongResidue(a: int, b: int, m: nat)
    requires m > 0
    ensures Cong(a, b, m) <==> a % m == b % m
  {
    DivModIdentity(a, m);
    DivModIdentity(b, m);
    if Cong(a, b, m) {
      var k := CongQuotient(a, b, m);
      ModPlusMultiple(b, k, m);
    } else if a % m == b % m {
      assert (a / m - b / m) * m == (a / m) * m - (b / m) * m;
      CongBy(a, b, a / m - b / m, m);
    }
  }

  lemma CongMod(a: int, m: nat)
    requires m > 0
    ensures Cong(a % m, a, m) && 0 <= a % m < m
  {
    DivModIdentity(a, m);
    assert (0 - a / m) * m == 0 - (a / m) * m;
    CongBy(a % m, a, 0 - a / m, m);
  }

  /** Residues in [0, m) that are congruent are equal. */
  lemma CongSmall(a: int, b: int, m: nat)
    requires m > 0 && Cong(a, b, m) && 0 <= a < m && 0 <= b < m
    ensures a == b
  {
    CongResidue(a, b, m);
    DivModUnique(a, m, 0, a);
    DivModUnique(b, m, 0, b);
  }
}
