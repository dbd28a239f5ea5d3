/** The integer argument behind division by a precomputed reciprocal, for any base `b` and any
    normalised divisor of one or two digits. */
module ReciprocalDivision {
  import opened Arith

  /** `b + v` is the floor of (b^2 - 1) / d. */
  ghost predicate IsInverse2by1(b: nat, d: nat, v: nat) {
    && (b + v) * d <= b * b - 1
    && b * b - 1 < (b + v + 1) * d
  }

  /** `b + v` is the floor of (b^3 - 1) / d. */
  ghost predicate IsInverse3by2(b: nat, d: nat, v: nat) {
    && (b + v) * d <= b * (b * b) - 1
    && b * (b * b) - 1 < (b + v + 1) * d
  }

  // ---- two digits by one ----

  lemma Identity2(b: int, d: int, v: int, u1: int, u0: int, q1: int, q0: int)
    requires (b + v) * u1 + u0 == q1 * b + q0
    ensures b * (u1 * b + u0 - (q1 + 1) * d)
         == u1 * (b * b - (b + v) * d) + u0 * (b - d) + (q0 - b) * d
  {
    calc {
      b * (u1 * b + u0 - (q1 + 1) * d);
      u1 * (b * b) + u0 * b - (q1 * b) * d - b * d;
      u1 * (b * b) + u0 * b - ((b + v) * u1 + u0 - q0) * d - b * d;
      u1 * (b * b) - (b + v) * u1 * d + u0 * b - u0 * d + q0 * d - b * d;
    }
    assert u1 * (b * b - (b + v) * d) == u1 * (b * b) - (b + v) * u1 * d;
  }

  /** The candidate remainder of the 2/1 step lies in a window of width `b`. */
  lemma Window2(b: nat, d: nat, v: nat, u1: nat, u0: nat, q1: nat, q0: nat, r: int)
    requires b <= 2 * d && d < b && u1 < d && u0 < b && q0 < b
    requires IsInverse2by1(b, d, v)
    requires (b + v) * u1 + u0 == q1 * b + q0
    requires r == u1 * b + u0 - (q1 + 1) * d
    ensures 0 - d <= r && q0 - b < r
    ensures r < b - d || r < q0
  {
    var k := b * b - (b + v) * d;
    assert 1 <= k <= d by { assert (b + v + 1) * d == (b + v) * d + d; }
    assert b * r == u1 * k + u0 * (b - d) + (q0 - b) * d by {
      Identity2(b, d, v, u1, u0, q1, q0);
    }
    Low2(b, d, k, u1, u0, q0, r);
    High2(b, d, k, u1, u0, q0, r);
  }

  lemma Low2(b: nat, d: nat, k: nat, u1: nat, u0: nat, q0: nat, r: int)
    requires 1 <= k && 0 < d < b && u0 < b && q0 < b
    requires b * r == u1 * k + u0 * (b - d) + (q0 - b) * d
    ensures 0 - d <= r && q0 - b < r
  {
    assert b * r >= (q0 - b) * d by {
      MulPos(u1, k);
      MulPos(u0, b - d);
    }
    LowBound(b, d, q0, r);
    MulLt(b - q0, d, b);
    assert (q0 - b) * d > b * (q0 - b);
    CancelLt(b, q0 - b, r);
  }

  lemma LowBound(b: nat, d: nat, q0: nat, r: int)
    requires b > 0 && b * r >= (q0 - b) * d
    ensures 0 - d <= r
  {
    assert (q0 - b) * d == q0 * d - b * d;
    assert b * (0 - d) == 0 - b * d;
    MulPos(q0, d);
    CancelLe(b, 0 - d, r);
  }

  lemma High2(b: nat, d: nat, k: nat, u1: nat, u0: nat, q0: nat, r: int)
    requires 1 <= k <= d < b && u1 < d && u0 < b && q0 < b
    requires b * r == u1 * k + u0 * (b - d) + (q0 - b) * d
    ensures r < b - d || r < q0
  {
    var e := b - d;
    assert u1 * k <= d * (d - 1) by { MulLe(u1, k, d); MulLe(d, u1, d - 1); }
    assert u0 * e <= e * (b - 1) by { MulLe(e, u0, b - 1); }
    High2Final(b, d, e, q0);
    Convex(d, e, q0, r, b);
  }

  lemma High2Final(b: nat, d: nat, e: nat, q0: nat)
    requires b == d + e && b > 0
    ensures d * (d - 1) + e * (b - 1) + (q0 - b) * d < e * e + d * q0
  {
    assert e * (b - 1) == e * e + e * d - e;
    assert (q0 - b) * d == q0 * d - d * d - e * d;
  }

  /** A weighted mean below e and q0 mixed is below one of them. */
  lemma Convex(d: nat, e: nat, x: int, r: int, s: nat)
    requires s == d + e && s * r < e * e + d * x
    ensures r < e || r < x
  {
    assert s * r == d * r + e * r;
    if r >= e && r >= x {
      MulLe(e, e, r);
      MulLe(d, x, r);
    }
  }

  // ---- three digits by two ----

  lemma Identity3(b: int, d: int, v: int, u2: int, u1: int, u0: int, q1: int, q0: int)
    requires (b + v) * u2 + u1 == q1 * b + q0
    ensures b * (u2 * (b * b) + u1 * b + u0 - (q1 + 1) * d)
         == u2 * (b * (b * b) - (b + v) * d) + u1 * (b * b - d) + b * u0 + (q0 - b) * d
  {
    calc {
      b * (u2 * (b * b) + u1 * b + u0 - (q1 + 1) * d);
      u2 * (b * (b * b)) + u1 * (b * b) + b * u0 - (q1 * b) * d - b * d;
      u2 * (b * (b * b)) + u1 * (b * b) + b * u0 - ((b + v) * u2 + u1 - q0) * d - b * d;
      u2 * (b * (b * b)) - (b + v) * u2 * d + u1 * (b * b) - u1 * d + b * u0 + q0 * d - b * d;
    }
    assert u2 * (b * (b * b) - (b + v) * d) == u2 * (b * (b * b)) - (b + v) * u2 * d;
  }

  /** The candidate remainder of the 3/2 step lies in a window of width b^2. */
  lemma Window3(b: nat, d: nat, v: nat, u2: nat, u1: nat, u0: nat, q1: nat, q0: nat, r: int)
    requires b >= 2 && b * b <= 2 * d && d < b * b && u2 * b + u1 < d && u1 < b && u0 < b && q0 < b
    requires IsInverse3by2(b, d, v)
    requires (b + v) * u2 + u1 == q1 * b + q0
    requires r == u2 * (b * b) + u1 * b + u0 - (q1 + 1) * d
    ensures 0 - d <= r && q0 * b - b * b <= r
    ensures r < b * b - d || r < q0 * b
  {
    var s, k := b * b, b * (b * b) - (b + v) * d;
    assert 1 <= k <= d by { assert (b + v + 1) * d == (b + v) * d + d; }
    assert b * r == u2 * k + u1 * (s - d) + b * u0 + (q0 - b) * d by {
      Identity3(b, d, v, u2, u1, u0, q1, q0);
    }
    Low3(b, s, d, k, u2, u1, u0, q0, r);
    if d <= s - b {
      High3(b, s, d, k, u2, u1, u0, q0, r);
    } else {
      High3Top(b, d, v, u2, u1, u0, q1, q0, r);
    }
  }

  lemma Low3Product(b: int, s: int, d: int, q0: int)
    requires s == b * b
    ensures b * (q0 * b - s) == 0 - (b - q0) * s && (q0 - b) * d == 0 - (b - q0) * d
  {
    assert b * (q0 * b - s) == q0 * (b * b) - b * s;
  }

  lemma Low3(b: nat, s: nat, d: nat, k: nat, u2: nat, u1: nat, u0: nat, q0: nat, r: int)
    requires b > 0 && s == b * b && 1 <= k && 0 < d < s && u1 < b && u0 < b && q0 < b
    requires b * r == u2 * k + u1 * (s - d) + b * u0 + (q0 - b) * d
    ensures 0 - d <= r && q0 * b - s <= r
  {
    assert b * r >= (q0 - b) * d by {
      MulPos(u2, k);
      MulPos(u1, s - d);
      MulPos(b, u0);
    }
    LowBound(b, d, q0, r);
    assert b * (q0 * b - s) <= (q0 - b) * d by {
      MulLe(b - q0, d, s);
      Low3Product(b, s, d, q0);
    }
    CancelLe(b, q0 * b - s, r);
  }

  lemma High3(b: nat, s: nat, d: nat, k: nat, u2: nat, u1: nat, u0: nat, q0: nat, r: int)
    requires b > 0 && s == b * b && 1 <= k <= d <= s - b && u2 * b + u1 < d && u1 < b && u0 < b && q0 < b
    requires b * r == u2 * k + u1 * (s - d) + b * u0 + (q0 - b) * d
    ensures r < s - d || r < q0 * b
  {
    var e := s - d;
    var w := u2 * k + u1 * e + b * u0 - b * d;
    assert b * w < e * e by { High3Sum(b, s, d, k, u2, u1, u0); }
    assert b * r == w + q0 * d by { assert (q0 - b) * d == q0 * d - b * d; }
    High3Scale(b, s, d, w, q0, r);
    Convex(d, e, q0 * b, r, s);
  }

  lemma High3Scale(b: nat, s: nat, d: nat, w: int, q0: nat, r: int)
    requires s == b * b && b * r == w + q0 * d
    ensures s * r == b * w + d * (q0 * b)
  {
    assert s * r == b * (b * r);
    assert b * (w + q0 * d) == b * w + b * (q0 * d);
  }

  /** The part of the remainder that does not depend on q0, against (b^2 - d)^2. */
  lemma High3Sum(b: nat, s: nat, d: nat, k: nat, u2: nat, u1: nat, u0: nat)
    requires b > 0 && s == b * b && 1 <= k <= d <= s - b && u2 * b + u1 < d && u1 < b && u0 < b
    ensures b * (u2 * k + u1 * (s - d) + b * u0 - b * d) < (s - d) * (s - d)
  {
    var e := s - d;
    High3Step(b, s, d, e, k, u2, u1, u0);
    Coefficient(b, s, d, e);
    MulLe(b * e - d, u1, b - 1);
    High3Final(b, s, d, e);
  }

  lemma High3Step(b: nat, s: nat, d: nat, e: nat, k: nat, u2: nat, u1: nat, u0: nat)
    requires b > 0 && s == b * b && k <= d && u2 * b + u1 < d && u0 < b
    ensures b * (u2 * k + u1 * e + b * u0 - b * d)
         <= d * (d - 1) + (b * e - d) * u1 + s * (b - 1) - s * d
  {
    High3Expand(b, s, d, e, k, u2, u1, u0);
    MulLe(s, u0, b - 1);
    assert (u2 * b) * k <= d * (d - 1 - u1) by {
      MulLe(u2 * b, k, d);
      MulLe(d, u2 * b, d - 1 - u1);
    }
    High3Gather(d, u1, b * e);
  }

  lemma High3Expand(b: nat, s: nat, d: nat, e: nat, k: nat, u2: nat, u1: nat, u0: nat)
    requires s == b * b
    ensures b * (u2 * k + u1 * e + b * u0 - b * d) == (u2 * b) * k + u1 * (b * e) + s * u0 - s * d
  {
  }

  lemma High3Gather(d: int, u1: int, x: int)
    ensures d * (d - 1 - u1) + u1 * x == d * (d - 1) + (x - d) * u1
  {
  }

  lemma Coefficient(b: nat, s: nat, d: nat, e: nat)
    requires s == b * b && e == s - d && d <= s - b
    ensures b * e - d >= 0
  {
    MulLe(b, b, e);
  }

  lemma High3Final(b: nat, s: nat, d: nat, e: nat)
    requires b > 0 && s == b * b && s == d + e
    ensures d * (d - 1) + (b * e - d) * (b - 1) + s * (b - 1) - s * d < e * e
  {
    assert d * (d - 1) == d * d - d;
    assert (b * e - d) * (b - 1) == b * (b * e) - b * e - b * d + d;
    assert b * (b * e) == s * e;
    assert s * (b - 1) == s * b - s;
    assert s * b == d * b + e * b;
    assert s * e == d * e + e * e;
    assert s * d == d * d + e * d;
    MulPos(b, b);
  }

  /** Divisors within b of b^2 have the zero reciprocal. */
  lemma ZeroReciprocal(b: nat, d: nat, v: nat)
    requires d < b * b && b * b - b < d && (b + v) * d <= b * (b * b) - 1
    ensures v == 0
  {
    var s := b * b;
    assert (b + 1) * (s - b + 1) == b * s + 1;
    MulLe(b + 1, s - b + 1, d);
    if v > 0 {
      MulLe(d, b + 1, b + v);
    }
  }

  lemma High3Top(b: nat, d: nat, v: nat, u2: nat, u1: nat, u0: nat, q1: nat, q0: nat, r: int)
    requires b >= 2 && d < b * b && b * b - b < d && u2 * b + u1 < d && u1 < b && u0 < b && q0 < b
    requires (b + v) * d <= b * (b * b) - 1
    requires (b + v) * u2 + u1 == q1 * b + q0
    requires r == u2 * (b * b) + u1 * b + u0 - (q1 + 1) * d
    ensures r < q0 * b
  {
    ZeroReciprocal(b, d, v);
    DivModUnique(b * u2 + u1, b, u2, u1);
    DivModUnique(b * u2 + u1, b, q1, q0);
    High3TopCore(b, b * b, d, u2, u1, u0, r);
  }

  lemma High3TopCore(b: nat, s: nat, d: nat, u2: nat, u1: nat, u0: nat, r: int)
    requires b >= 2 && s == b * b && s - b < d < s && u2 * b + u1 < d && u0 < b
    requires r == u2 * s + u1 * b + u0 - (u2 + 1) * d
    ensures r < u1 * b
  {
    var e := s - d;
    CancelLt(b, u2, b);
    assert u2 * e <= (b - 1) * (b - 1) by {
      MulLe(u2, e, b - 1);
      MulLe(b - 1, u2, b - 1);
    }
    High3TopFinal(b, s, d, e, u2);
  }

  lemma High3TopFinal(b: int, s: int, d: int, e: int, u2: int)
    requires s == b * b && d == s - e
    ensures (b - 1) * (b - 1) == s - 2 * b + 1 && (u2 + 1) * d == u2 * s - u2 * e + d
  {
  }

  /** The candidate quotient of the 3/2 step fits in one digit. */
  lemma CandidateFits(b: nat, s: nat, d: nat, v: nat, u2: nat, u1: nat)
    requires b > 0 && s == b * b && 0 < d < s && u2 * b + u1 < d
    requires (b + v) * d <= b * s - 1
    ensures (b + v) * u2 + u1 < s
  {
    var x := (b + v) * u2 + u1;
    assert d * (b * x) == (u2 * b) * ((b + v) * d) + (d * b) * u1 by { CandidateExpand(b, d, v, u2, u1); }
    CandidateBound(b * s, d, (b + v) * d, u2 * b, u1, (d * b) * u1) by {
      MulLe(b * u1, d, s);
      MulPos(b, s);
    }
    CancelLt(d, b * x, b * s);
    CancelLt(b, x, s);
  }

  lemma CandidateBound(c: nat, d: nat, e: nat, w: nat, u1: nat, z: nat)
    requires c > 0 && e < c && w + u1 < d && z <= c * u1
    ensures w * e + z < d * c
  {
    MulLe(w, e, c);
    MulLe(c, w, d - 1 - u1);
    assert (d - 1 - u1) * c + c * u1 == d * c - c;
  }

  lemma CandidateExpand(b: int, d: int, v: int, u2: int, u1: int)
    ensures d * (b * ((b + v) * u2 + u1)) == (u2 * b) * ((b + v) * d) + (d * b) * u1
  {
    assert b * ((b + v) * u2 + u1) == (u2 * b) * (b + v) + b * u1;
    assert d * ((u2 * b) * (b + v)) == (u2 * b) * ((b + v) * d);
  }
}
