/** Integer facts the solver does not find by itself, one small lemma each: products and
    orders, quotients and remainders. */
module Arith {

  function Abs(x: int): nat { if x < 0 then -x else x }

  lemma MulLe(a: nat, b: int, c: int)
    requires b <= c
    ensures a * b <= a * c
  {
  }

  lemma MulLt(a: nat, b: int, c: int)
    requires a > 0 && b < c
    ensures a * b < a * c
  {
  }

  lemma MulPos(a: nat, b: nat)
    ensures a * b >= 0
    ensures a > 0 && b > 0 ==> a * b > 0
  {
  }

  /** Cancelling a positive factor from a strict inequality. */
  lemma CancelLt(a: nat, b: int, c: int)
    requires a * b < a * c
    ensures b < c
  {
    if c <= b {
      MulLe(a, c, b);
    }
  }

  lemma CancelLe(a: nat, b: int, c: int)
    requires a > 0 && a * b <= a * c
    ensures b <= c
  {
    if c < b {
      MulLt(a, c, b);
    }
  }

  /** A quotient and a remainder below the divisor are the only ones. */
  lemma DivModUnique(n: int, d: int, q: int, r: int)
    requires d > 0 && n == q * d + r && 0 <= r < d
    ensures n / d == q && n % d == r
  {
    var q', r' := n / d, n % d;
    assert n == d * q' + r';
    if q < q' {
      MulLe(d, q + 1, q');
    } else if q' < q {
      MulLe(d, q' + 1, q);
    }
  }

  lemma ModPlusMultiple(n: int, k: int, d: int)
    requires d > 0
    ensures (n + k * d) % d == n % d
  {
    var q, r := n / d, n % d;
    assert n + k * d == (q + k) * d + r;
    DivModUnique(n + k * d, d, q + k, r);
  }

  lemma DivModIdentity(n: int, d: int)
    requires d > 0
    ensures n == (n / d) * d + n % d && 0 <= n % d < d
  {
  }
}
