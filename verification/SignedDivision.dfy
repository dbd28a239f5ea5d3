/** mini-gmp: mpz_div_qr, division of signed integers in three rounding modes. */
module SignedDivision {
  import opened Arith
  import opened Numerals
  import opened Limbs
  import opened LimbArrays
  import opened LongDivision
  import opened TextCode

  datatype Mode = Floor | Ceil | Trunc

  /** The remainder has the sign of the divisor, the other sign, or the sign of the dividend. */
  predicate RoundedAs(mode: Mode, n: int, d: int, r: int) {
    r != 0 ==>
      match mode
      case Floor => (r > 0 <==> d > 0)
      case Ceil => (r > 0 <==> d < 0)
      case Trunc => (r > 0 <==> n > 0)
  }

  /**
    * Quotient and remainder; a caller may want no quotient. mpz_add and its like are taken at
    * their integer meaning.
    */
  method MpzDivQr(n: Integer, d: Integer, mode: Mode, wantQ: bool)
    returns (q: int, r: int, inexact: bool, ghost quotient: int)
    requires n.Valid() && d.Valid() && d.Value() != 0
    ensures n.Value() == quotient * d.Value() + r && Abs(r) < Abs(d.Value()) && (wantQ ==> q == quotient)
    ensures RoundedAs(mode, n.Value(), d.Value(), r)
    ensures inexact <==> r != 0
  {
    hide Val, Pow, Integer.Value, Abs, RoundedAs;
    SignOf(n);
    SignOf(d);
    if n.size == 0 {
      RoundedZero(mode, d.Value());
      return 0, 0, false, 0;
    }
    var nn, dn := n.Length(), d.Length();
    var same := (n.size < 0) == (d.size < 0);
    if nn < dn {
      Shorter(n, d);
      RoundedShort(mode, n.Value(), d.Value());
      if mode == Ceil && same {
        q, r := 1, ValueOf(n) - ValueOf(d);
      } else if mode == Floor && !same {
        q, r := -1, ValueOf(n) + ValueOf(d);
      } else {
        q, r := 0, ValueOf(n);
      }
      inexact, quotient := true, q;
      return;
    }
    var tr;
    q, tr, quotient := Magnitudes(n, d, wantQ);
    Rounded(mode, n.Value(), d.Value(), quotient, tr);
    r, inexact := tr, tr != 0;
    if !same {
      q, quotient := 0 - q, 0 - quotient;
    }
    if n.size < 0 {
      r := 0 - tr;
    }
    if mode == Floor && !same && tr != 0 {
      q, r, quotient := q - 1, r + ValueOf(d), quotient - 1;
    } else if mode == Ceil && same && tr != 0 {
      q, r, quotient := q + 1, r - ValueOf(d), quotient + 1;
    }
  }

  function ValueOf(x: Integer): (v: int)
    requires x.Valid()
    reads x
    ensures v == x.Value()
  {
    var m := Read(x.limbs[..x.Length()]);
    if x.size < 0 then 0 - m else m
  }

  function Read(s: seq<Limb>): (n: nat)
    ensures n == V(s)
  {
    if s == [] then 0 else Read(s[..|s| - 1]) + s[|s| - 1] * Pow(BASE, |s| - 1)
  }

  lemma SignOf(x: Integer)
    requires x.Valid()
    ensures (x.size < 0 <==> x.Value() < 0) && (x.size == 0 <==> x.Value() == 0)
    ensures Abs(x.Value()) == V(x.limbs[..x.Length()])
  {
    if x.size != 0 {
      TopNotZero(x.limbs[..x.Length()]);
    } else {
      assert x.limbs[..0] == [];
    }
  }

  /** A number of fewer limbs is smaller. */
  lemma Shorter(n: Integer, d: Integer)
    requires n.Valid() && d.Valid() && n.Length() < d.Length()
    ensures Abs(n.Value()) < Abs(d.Value())
  {
    hide Pow, Val, Integer.Value;
    SignOf(n);
    SignOf(d);
    ShorterLimbs(n.limbs[..n.Length()], d.limbs[..d.Length()]);
  }

  lemma ShorterLimbs(s: seq<Limb>, t: seq<Limb>)
    requires |s| < |t| && t[|t| - 1] > 0
    ensures V(s) < V(t)
  {
    hide Pow, Val;
    var k := |t| - 1;
    ValBound(BASE, s);
    PowMono(BASE, |s|, k);
    ValTake(BASE, t, k);
    assert t[..k + 1] == t;
    MulLe(Pow(BASE, k), 1, t[k]);
  }

  /** mpn_div_qr on the magnitudes, with a copy of the dividend. */
  method Magnitudes(n: Integer, d: Integer, wantQ: bool) returns (tq: int, tr: int, ghost q: nat)
    requires n.Valid() && d.Valid() && d.size != 0 && d.Length() <= n.Length()
    ensures Abs(n.Value()) == q * Abs(d.Value()) + tr && 0 <= tr < Abs(d.Value()) && (wantQ ==> tq == q)
  {
    hide Val, Pow, Integer.Value, Abs;
    var nn, dn := n.Length(), d.Length();
    var np := new Limb[nn](i requires 0 <= i < nn <= |n.limbs| reads n => n.limbs[i]);
    var dp := new Limb[dn](i requires 0 <= i < dn <= |d.limbs| reads d => d.limbs[i]);
    var qp: array?<Limb> := null;
    if wantQ {
      qp := new Limb[nn - dn + 1];
    }
    assert np[..nn] == n.limbs[..nn] && dp[..dn] == d.limbs[..dn];
    SignOf(n);
    SignOf(d);
    ghost var a, b := V(np[..nn]), V(dp[..dn]);
    DivQr(qp, np, nn, dp, dn);
    tq, tr := if qp == null then 0 else Read(qp[..nn - dn + 1]), Read(np[..dn]);
    q := if qp == null then a / b else tq;
    DivModIdentity(a, b);
  }

  lemma TruncatedSigns(n: int, d: int, q: nat, r: nat)
    requires Abs(n) == q * Abs(d) + r && r < Abs(d)
    ensures (n < 0) == (d < 0) ==> n == q * d + (if n < 0 then 0 - (r as int) else r)
    ensures (n < 0) != (d < 0) ==> n == (0 - q) * d + (if n < 0 then 0 - (r as int) else r)
  {
    assert (0 - q) * d == 0 - q * d == q * (0 - d);
  }

  /** The signs put back, and one more or one less where the mode asks for it. */
  lemma Rounded(mode: Mode, n: int, d: int, tq: nat, tr: nat)
    requires d != 0 && Abs(n) == tq * Abs(d) + tr && tr < Abs(d)
    ensures var same, t := (n < 0) == (d < 0), if n < 0 then 0 - (tr as int) else tr;
      var u := if same then tq else 0 - tq;
      var up, down := mode == Ceil && same && tr != 0, mode == Floor && !same && tr != 0;
      var q := if down then u - 1 else if up then u + 1 else u;
      var r := if down then t + d else if up then t - d else t;
      n == q * d + r && Abs(r) < Abs(d) && RoundedAs(mode, n, d, r) && (tr != 0 <==> r != 0)
  {
    TruncatedSigns(n, d, tq, tr);
    var same, t := (n < 0) == (d < 0), if n < 0 then 0 - (tr as int) else tr;
    OneMore(if same then tq else 0 - tq, d, t);
  }

  lemma RoundedZero(mode: Mode, d: int)
    requires d != 0
    ensures Abs(0) < Abs(d) && RoundedAs(mode, 0, d, 0)
  {
  }

  /** A dividend smaller than the divisor. */
  lemma RoundedShort(mode: Mode, n: int, d: int)
    requires n != 0 && Abs(n) < Abs(d)
    ensures var same := (n < 0) == (d < 0);
      var q := if mode == Ceil && same then 1 else if mode == Floor && !same then -1 else 0;
      var r := if mode == Ceil && same then n - d else if mode == Floor && !same then n + d else n;
      n == q * d + r && Abs(r) < Abs(d) && RoundedAs(mode, n, d, r) && r != 0
  {
  }

  lemma OneMore(q: int, d: int, r: int)
    ensures (q - 1) * d + (r + d) == q * d + r && (q + 1) * d + (r - d) == q * d + r
  {
  }
}
