/** mini-gmp: digit strings of limb arrays, for bases that are powers of two. A digit is a
    slice of bits, which may lie across two limbs. */
module BitStrings {
  import opened Arith
  import opened Numerals
  import opened Basics
  import opened Limbs
  import opened Invert3by2
  import opened LimbArrays
  import opened DivisorInverse
  import opened BaseText
  import opened DigitStrings

  // ---- powers of two ----

  lemma PowOfPow(bits: nat, k: nat)
    ensures Pow(Pow(2, bits), k) == Pow(2, bits * k)
  {
    hide Pow;
    if k == 0 {
      PowZero(2);
      PowZero(Pow(2, bits));
    } else {
      PowOfPow(bits, k - 1);
      PowStep(Pow(2, bits), k - 1);
      PowAdd(2, bits, bits * (k - 1));
      assert bits + bits * (k - 1) == bits * k;
    }
  }

  lemma LimbPowers(k: nat)
    ensures Pow(BASE, k) == Pow(2, 64 * k)
  {
    LimbPower();
    PowOfPow(64, k);
  }

  // ---- one digit ----

  /** A number cut at a place inside a limb: the limb's upper part, then the rest. */
  lemma CutInLimb(u: nat, t: nat, f: nat, g: nat)
    requires f > 0 && g > 0 && f * g == BASE && u < BASE
    ensures (u + BASE * t) / f == u / f + g * t && 0 <= u / f < g
  {
    assert u == f * (u / f) + u % f;
    assert BASE * t == (f * g) * t == f * (g * t);
    DivModUnique(u + BASE * t, f, u / f + g * t, u % f) by {
      assert (u / f + g * t) * f == f * (u / f) + f * (g * t);
    }
    CancelLt(f, u / f, g);
  }

  lemma DivTwice(n: nat, a: nat, b: nat)
    requires a > 0 && b > 0
    ensures a * b > 0 && n / a / b == n / (a * b)
  {
    MulPos(a, b);
    var q, r := n / a, n % a;
    var q2, r2 := q / b, q % b;
    assert n == (a * b) * q2 + (a * r2 + r) by {
      assert n == a * q + r && q == b * q2 + r2;
      assert a * (b * q2 + r2) == (a * b) * q2 + a * r2;
    }
    MulLe(a, r2 + 1, b);
    DivModUnique(n, a * b, q2, a * r2 + r);
  }

  /** The digit at a place inside limb u, when v and t are the next limb and the rest. The shifted
      parts do not overlap, so that adding them is C's `|`. */
  lemma DigitAt(u: nat, v: nat, t: nat, f: nat, g: nat, base: nat, c: nat)
    requires f > 0 && g > 0 && f * g == BASE && u < BASE && base > 0 && BASE == c * base
    ensures ((u + BASE * (v + BASE * t)) / f) % base == (u / f + v * g) % base
  {
    CutInLimb(u, v + BASE * t, f, g);
    assert g * (v + BASE * t) == v * g + (g * t * c) * base by {
      assert g * (BASE * t) == (g * t) * BASE == (g * t) * (c * base) == (g * t * c) * base;
    }
    ModPlusMultiple(u / f + v * g, g * t * c, base);
  }

  /** When the whole digit lies in the limb, the next one does not matter. */
  lemma DigitInside(u: nat, t: nat, f: nat, g: nat, base: nat, c: nat)
    requires f > 0 && g > 0 && f * g == BASE && u < BASE && base > 0 && g == c * base
    ensures ((u + BASE * t) / f) % base == (u / f) % base
  {
    CutInLimb(u, t, f, g);
    assert g * t == (c * t) * base;
    ModPlusMultiple(u / f, c * t, base);
  }

  // ---- mpn_get_str_bits ----

  /** What is left of the number above the place reached. */
  ghost function Left(up: seq<Limb>, i: nat, shift: nat): nat
    requires i <= |up|
  {
    PowPos(2, shift);
    V(up[i..]) / Pow(2, shift)
  }

  method BitDigit(up: seq<Limb>, i: nat, shift: nat, bits: nat) returns (digit: nat, i': nat, shift': nat)
    requires i < |up| && shift < 64 && 1 <= bits <= 5
    ensures i <= i' <= |up| && (i' < |up| ==> shift' < 64 && 64 * i' + shift' == 64 * i + shift + bits)
    ensures Pow(2, bits) > 0 && digit == Left(up, i, shift) % Pow(2, bits)
    ensures Left(up, i, shift) / Pow(2, bits) == if i' < |up| then Left(up, i', shift') else 0
    ensures i' == |up| ==> 64 * i + shift + bits >= 64 * |up|
  {
    hide Val, Pow, Left;
    PlaceFactors(shift, bits);
    var f, g, base := Pow(2, shift), Pow(2, 64 - shift), Pow(2, bits);
    digit := up[i] / f;
    i', shift' := i, shift + bits;
    if shift' >= 64 {
      i' := i + 1;
      if i' < |up| {
        shift' := shift' - 64;
        digit := digit + up[i'] * g;
        DigitAcross(up, i, shift, bits);
      } else {
        DigitAtEnd(up, i, shift, bits);
      }
    } else {
      DigitWithin(up, i, shift, bits);
    }
    digit := digit % base;
  }

  lemma SplitHere(up: seq<Limb>, i: nat)
    requires i < |up|
    ensures V(up[i..]) == up[i] + BASE * V(up[i + 1..])
  {
    hide Val;
    ValCons(BASE, up[i], up[i + 1..]);
    assert up[i..] == [up[i]] + up[i + 1..];
  }

  /** Dividing what is left by the base moves the place on. */
  lemma LeftDivided(up: seq<Limb>, i: nat, shift: nat, bits: nat)
    requires i < |up| && 1 <= bits <= 5
    ensures Pow(2, bits) > 0 && Pow(2, shift + bits) > 0
    ensures Left(up, i, shift) / Pow(2, bits) == V(up[i..]) / Pow(2, shift + bits)
  {
    hide Pow, Val;
    PowPos(2, shift);
    PowPos(2, bits);
    DivTwice(V(up[i..]), Pow(2, shift), Pow(2, bits));
    PowAdd(2, shift, bits);
  }

  lemma DigitWithin(up: seq<Limb>, i: nat, shift: nat, bits: nat)
    requires i < |up| && shift + bits < 64 && 1 <= bits <= 5
    ensures Pow(2, shift) > 0 && Pow(2, bits) > 0
    ensures Left(up, i, shift) % Pow(2, bits) == up[i] / Pow(2, shift) % Pow(2, bits)
    ensures Left(up, i, shift) / Pow(2, bits) == Left(up, i, shift + bits)
  {
    hide Pow, Val;
    PlaceFactors(shift, bits);
    LeftDivided(up, i, shift, bits);
    SplitHere(up, i);
    DigitInside(up[i], V(up[i + 1..]), Pow(2, shift), Pow(2, 64 - shift), Pow(2, bits), Pow(2, 64 - shift - bits));
  }

  lemma DigitAcross(up: seq<Limb>, i: nat, shift: nat, bits: nat)
    requires i + 1 < |up| && shift < 64 <= shift + bits && 1 <= bits <= 5
    ensures Pow(2, shift) > 0 && Pow(2, bits) > 0
    ensures Left(up, i, shift) % Pow(2, bits) == (up[i] / Pow(2, shift) + up[i + 1] * Pow(2, 64 - shift)) % Pow(2, bits)
    ensures Left(up, i, shift) / Pow(2, bits) == Left(up, i + 1, shift + bits - 64)
  {
    hide Pow, Val;
    PlaceFactors(shift, bits);
    LeftDivided(up, i, shift, bits);
    SplitHere(up, i);
    SplitHere(up, i + 1);
    NextLimb(up[i], V(up[i + 1..]), shift, bits);
    DigitAt(up[i], up[i + 1], V(up[i + 2..]), Pow(2, shift), Pow(2, 64 - shift), Pow(2, bits), Pow(2, 64 - bits));
  }

  lemma DigitAtEnd(up: seq<Limb>, i: nat, shift: nat, bits: nat)
    requires i + 1 == |up| && shift < 64 <= shift + bits && 1 <= bits <= 5
    ensures Pow(2, shift) > 0 && Pow(2, bits) > 0
    ensures Left(up, i, shift) == up[i] / Pow(2, shift)
    ensures Left(up, i, shift) / Pow(2, bits) == 0
  {
    hide Pow;
    PlaceFactors(shift, bits);
    LeftDivided(up, i, shift, bits);
    SplitHere(up, i);
    assert up[i + 1..] == [];
    NextLimb(up[i], 0, shift, bits);
    ZeroQuotient(Pow(2, shift + bits - 64));
  }

  lemma ZeroQuotient(d: nat)
    requires d > 0
    ensures 0 / d == 0
  {
  }

  lemma PlaceFactors(shift: nat, bits: nat)
    requires shift < 64 && 1 <= bits <= 5
    ensures Pow(2, shift) > 0 && Pow(2, 64 - shift) > 0 && Pow(2, bits) > 0
      && Pow(2, shift) * Pow(2, 64 - shift) == BASE
    ensures BASE == Pow(2, 64 - bits) * Pow(2, bits)
    ensures shift + bits < 64 ==> Pow(2, 64 - shift) == Pow(2, 64 - shift - bits) * Pow(2, bits)
  {
    hide Pow;
    LimbPower();
    PowPos(2, shift);
    PowPos(2, 64 - shift);
    PowPos(2, bits);
    PowAdd(2, shift, 64 - shift);
    PowAdd(2, 64 - bits, bits);
    if shift + bits < 64 {
      PowAdd(2, 64 - shift - bits, bits);
    }
  }

  /** Crossing into the next limb. */
  lemma NextLimb(u: nat, t: nat, shift: nat, bits: nat)
    requires u < BASE && shift < 64 && shift + bits >= 64
    ensures Pow(2, shift + bits) > 0 && Pow(2, shift + bits - 64) > 0
    ensures (u + BASE * t) / Pow(2, shift + bits) == t / Pow(2, shift + bits - 64)
  {
    hide Pow;
    LimbPower();
    var e := shift + bits - 64;
    PowAdd(2, 64, e);
    PowPos(2, e);
    DivTwice(u + BASE * t, BASE, Pow(2, e));
    DivModUnique(u + BASE * t, BASE, t, u);
  }

  /** mpn_limb_size_in_base_2. */
  method LimbSizeInBase2(u: Limb) returns (size: nat)
    requires u > 0
    ensures 1 <= size <= 64 && Pow(2, size - 1) <= u < Pow(2, size)
  {
    hide Pow;
    var shift := Clz(u);
    size := 64 - shift;
    SizeFromShift(u, shift);
  }

  lemma SizeFromShift(u: Limb, c: nat)
    requires c < 64 && BASE / 2 <= u * Pow(2, c) < BASE
    ensures Pow(2, 63 - c) <= u < Pow(2, 64 - c)
  {
    hide Pow;
    LimbPower();
    PowPos(2, c);
    PowAdd(2, 64 - c, c);
    PowAdd(2, 63 - c, c);
    PowStep(2, 63);
    CancelLt(Pow(2, c), u, Pow(2, 64 - c));
    CancelLe(Pow(2, c), Pow(2, 63 - c), u);
  }

  /** The length in bits of a number with a top limb of the given size. */
  lemma BitLength(up: seq<Limb>, size: nat)
    requires up != [] && 1 <= size <= 64 && Pow(2, size - 1) <= up[|up| - 1] < Pow(2, size)
    ensures Pow(2, 64 * (|up| - 1) + size - 1) <= V(up) < Pow(2, 64 * (|up| - 1) + size)
  {
    hide Pow;
    var n, top := |up| - 1, up[|up| - 1];
    LimbPowers(n);
    ValBound(BASE, up[..n]);
    PowAdd(2, 64 * n, size);
    PowAdd(2, 64 * n, size - 1);
    TopLimbBounds(V(up[..n]), Pow(2, 64 * n), top, Pow(2, size - 1), Pow(2, size));
  }

  lemma TopLimbBounds(low: nat, p: nat, top: nat, a: nat, b: nat)
    requires low < p && a <= top < b
    ensures p * a <= low + top * p < p * b
  {
    MulLe(p, a, top);
    MulLe(p, top + 1, b);
  }

  method GetStrBits(bits: nat, up: seq<Limb>) returns (sp: seq<nat>)
    requires 1 <= bits <= 5 && up != [] && up[|up| - 1] > 0
    ensures Pow(2, bits) >= 2 && sp == BeDigits(V(up), Pow(2, bits))
  {
    hide Val, Pow, Left;
    var un := |up|;
    var size := LimbSizeInBase2(up[un - 1]);
    BitLength(up, size);
    var sn := (64 * (un - 1) + size + bits - 1) / bits;
    BaseAtLeastTwo(bits);
    ghost var base, n, ds, left := Pow(2, bits), V(up), [], V(up);
    PowZero(2);
    PowZero(base);
    EmptyVal(base);
    StartLeft(up);
    sp := [];
    var i, shift, j := 0, 0, sn;
    while j > 0
      invariant 0 <= j <= sn && |ds| == sn - j && i <= un && sp == Reversed(ds)
      invariant Digits(base, ds) && n == Val(base, ds) + Pow(base, sn - j) * left
      invariant if i < un then left == Left(up, i, shift) && shift < 64 && 64 * i + shift == bits * (sn - j) else bits * (sn - j) >= 64 * un
    {
      j := j - 1;
      StillInside(bits, sn, sn - j - 1, un, size);
      var digit;
      ghost var was := left;
      digit, i, shift := BitDigit(up, i, shift, bits);
      left := was / base;
      ValSnoc(base, ds, digit);
      PowStep(base, |ds|);
      DigitStep(Pow(base, |ds|), was, left, base, digit) by { DivModIdentity(was, base); }
      assert Reversed(ds + [digit]) == [digit] + Reversed(ds);
      NextPlace(bits, sn - j - 1);
      ds := ds + [digit];
      sp := [digit] + sp;
    }
    AllDigits(base, bits, ds, n, left, 64 * (un - 1) + size);
    DigitsUnique(base, ds);
  }

  lemma NextPlace(bits: nat, k: nat)
    ensures bits * (k + 1) == bits * k + bits
  {
  }

  lemma BaseAtLeastTwo(bits: nat)
    requires 1 <= bits
    ensures Pow(2, bits) >= 2
  {
    hide Pow;
    PowMono(2, 1, bits);
    PowStep(2, 0);
    PowZero(2);
  }

  lemma StartLeft(up: seq<Limb>)
    ensures Left(up, 0, 0) == V(up)
  {
    assert up[0..] == up;
  }

  lemma StillInside(bits: nat, sn: nat, k: nat, un: nat, size: nat)
    requires 1 <= bits && un >= 1 && size <= 64 && k < sn && sn == (64 * (un - 1) + size + bits - 1) / bits
    ensures bits * k < 64 * un
  {
    DivModIdentity(64 * (un - 1) + size + bits - 1, bits);
    MulLe(bits, k, sn - 1);
    assert bits * (sn - 1) == sn * bits - bits;
  }

  /** As many digits as the length in bits asks for are all digits, and the first is not zero. */
  lemma AllDigits(base: nat, bits: nat, ds: seq<nat>, n: nat, left: nat, len: nat)
    requires bits >= 1 && len >= 1 && base == Pow(2, bits) >= 2 && |ds| == (len + bits - 1) / bits && Digits(base, ds)
    requires n == Val(base, ds) + Pow(base, |ds|) * left && Pow(2, len - 1) <= n < Pow(2, len)
    ensures n == Val(base, ds) && ds != [] && ds[|ds| - 1] > 0
  {
    hide Pow, Val;
    var k := |ds|;
    DivModIdentity(len + bits - 1, bits);
    assert bits * k >= len;
    CancelLt(bits, 0, k);
    assert bits * (k - 1) <= len - 1;
    PowOfPow(bits, k);
    PowMono(2, len, bits * k);
    if left > 0 {
      MulLe(Pow(base, k), 1, left);
    }
    PowOfPow(bits, k - 1);
    PowMono(2, bits * (k - 1), len - 1);
    ValTake(base, ds, k - 1);
    assert ds[..k] == ds;
    ValBound(base, ds[..k - 1]);
  }

  // ---- mpn_set_str_bits ----

  /** The limbs hold the first k digits, and the next one goes to bit `shift` of the last limb. */
  ghost predicate Filled(rp: seq<Limb>, shift: nat, bits: nat, k: nat, ds: seq<nat>) {
    && k <= |ds| && shift < 64
    && V(rp) == Val(Pow(2, bits), ds[..k])
    && if shift == 0 then 64 * |rp| == bits * k else rp != [] && 64 * (|rp| - 1) + shift == bits * k
  }

  lemma StartFilled(bits: nat, ds: seq<nat>)
    ensures Filled([], 0, bits, 0, ds)
  {
    assert ds[..0] == [];
  }

  lemma NewLimb(rp: seq<Limb>, bits: nat, k: nat, ds: seq<nat>, d: Limb)
    requires 1 <= bits <= 5 && Filled(rp, 0, bits, k, ds) && k < |ds| && d == ds[k]
    ensures Filled(rp + [d], bits, bits, k + 1, ds)
  {
    hide Pow;
    ValSnoc(BASE, rp, d);
    ValTake(Pow(2, bits), ds, k);
    PowOfPow(bits, k);
    LimbPowers(|rp|);
    NextPlace(bits, k);
  }

  /** A digit shifted to its place: what stays in the limb and what goes to the next. */
  lemma ShiftedDigit(d: nat, f: nat, g: nat)
    requires f > 0 && g > 0 && f * g == BASE
    ensures d * f == (d % g) * f + BASE * (d / g) && (d % g) * f + f <= BASE
  {
    assert d == g * (d / g) + d % g;
    assert d * f == (f * g) * (d / g) + (d % g) * f;
    MulLe(f, d % g + 1, g);
  }

  lemma OrDigit(rp: seq<Limb>, shift: nat, bits: nat, k: nat, ds: seq<nat>, d: Limb, top: nat)
    requires 1 <= bits <= 5 && Filled(rp, shift, bits, k, ds) && shift > 0 && k < |ds| && d == ds[k] && d < Pow(2, bits)
    requires Digits(Pow(2, bits), ds) && Pow(2, 64 - shift) > 0
    requires top == rp[|rp| - 1] + (d % Pow(2, 64 - shift)) * Pow(2, shift)
    ensures top < BASE
    ensures shift + bits < 64 ==> Filled(rp[..|rp| - 1] + [top], shift + bits, bits, k + 1, ds)
    ensures shift + bits == 64 ==> Filled(rp[..|rp| - 1] + [top], 0, bits, k + 1, ds)
    ensures shift + bits > 64 && d / Pow(2, 64 - shift) < BASE ==>
      Filled(rp[..|rp| - 1] + [top] + [d / Pow(2, 64 - shift)], shift + bits - 64, bits, k + 1, ds)
  {
    hide Pow, Val;
    var f, g, base, n := Pow(2, shift), Pow(2, 64 - shift), Pow(2, bits), |rp| - 1;
    PlaceFactors(shift, bits);
    ShiftedDigit(d, f, g);
    TopBelowShift(rp, shift, bits, k, ds);
    var low, p := rp[..n], Pow(BASE, n);
    ValTake(BASE, rp, n);
    assert rp[..n + 1] == rp;
    ValTake(base, ds, k);
    PowOfPow(bits, k);
    LimbPowers(n);
    PowAdd(2, 64 * n, shift);
    NextPlace(bits, k);
    ValSnoc(BASE, low, top);
    PlaceDigit(V(low), rp[n], p, d, f, d % g, d / g);
    HighDigit(d, g, shift, bits);
    if d / g < BASE {
      ValSnoc(BASE, low + [top], d / g);
      PowStep(BASE, n);
    }
  }

  lemma PlaceDigit(low: int, t: int, p: int, d: int, f: int, m: int, h: int)
    requires d * f == m * f + BASE * h
    ensures low + t * p + d * (p * f) == low + (t + m * f) * p + h * (BASE * p)
  {
    assert d * (p * f) == (d * f) * p == (m * f + BASE * h) * p;
    assert (t + m * f) * p == t * p + (m * f) * p;
    assert (BASE * h) * p == h * (BASE * p);
  }

  /** A digit that fits in what is left of the limb has no part above it. */
  lemma HighDigit(d: nat, g: nat, shift: nat, bits: nat)
    requires shift < 64 && g == Pow(2, 64 - shift) && d < Pow(2, bits) && g > 0
    ensures shift + bits <= 64 ==> d / g == 0
  {
    hide Pow;
    if shift + bits <= 64 {
      PowMono(2, bits, 64 - shift);
      DivModUnique(d, g, 0, d);
    }
  }

  lemma TopBelowShift(rp: seq<Limb>, shift: nat, bits: nat, k: nat, ds: seq<nat>)
    requires Filled(rp, shift, bits, k, ds) && shift > 0 && Digits(Pow(2, bits), ds)
    ensures rp[|rp| - 1] < Pow(2, shift)
  {
    hide Pow;
    var n := |rp| - 1;
    PowPos(2, bits);
    ValBound(Pow(2, bits), ds[..k]);
    PowOfPow(bits, k);
    PowAdd(2, 64 * n, shift);
    LimbPowers(n);
    ValTake(BASE, rp, n);
    assert rp[..n + 1] == rp;
    PowPos(BASE, n);
    CancelLt(Pow(BASE, n), rp[n], Pow(2, shift)) by {
      assert rp[n] * Pow(BASE, n) == Pow(BASE, n) * rp[n];
    }
  }

  method SetStrBits(sp: seq<nat>, bits: nat) returns (rp: seq<Limb>)
    requires 1 <= bits <= 5 && Digits(Pow(2, bits), sp)
    ensures V(rp) == BeVal(Pow(2, bits), sp) && (rp != [] ==> rp[|rp| - 1] > 0)
  {
    hide Val, Pow, Filled;
    ghost var base, ds := Pow(2, bits), Reversed(sp);
    StartFilled(bits, ds);
    rp := [];
    var j, shift := |sp|, 0;
    while j > 0
      invariant 0 <= j <= |sp| && Filled(rp, shift, bits, |sp| - j, ds) && shift < 64 && (shift > 0 ==> rp != [])
    {
      j := j - 1;
      SmallDigit(bits, sp[j]);
      rp, shift := PutDigit(rp, shift, bits, sp[j], |sp| - j - 1, ds);
    }
    AllFilled(rp, shift, bits, sp);
    rp := Normalize(rp);
  }

  lemma SmallDigit(bits: nat, d: nat)
    requires bits <= 5 && d < Pow(2, bits)
    ensures d < BASE
  {
    hide Pow;
    PowMono(2, bits, 64);
    LimbPower();
  }

  lemma AllFilled(rp: seq<Limb>, shift: nat, bits: nat, sp: seq<nat>)
    requires Filled(rp, shift, bits, |sp|, Reversed(sp))
    ensures V(rp) == BeVal(Pow(2, bits), sp)
  {
    hide Pow, Val;
    assert Reversed(sp)[..|sp|] == Reversed(sp);
    ReversedValue(Pow(2, bits), Reversed(sp));
    assert Reversed(Reversed(sp)) == sp;
  }

  method PutDigit(rp0: seq<Limb>, shift0: nat, bits: nat, d: Limb, ghost k: nat, ghost ds: seq<nat>)
    returns (rp: seq<Limb>, shift: nat)
    requires 1 <= bits <= 5 && Filled(rp0, shift0, bits, k, ds) && k < |ds| && d == ds[k] && d < Pow(2, bits)
    requires Digits(Pow(2, bits), ds) && shift0 < 64 && (shift0 > 0 ==> rp0 != [])
    ensures Filled(rp, shift, bits, k + 1, ds) && shift < 64 && (shift > 0 ==> rp != [])
  {
    hide Val, Pow, Filled, Digits;
    rp, shift := rp0, shift0;
    if shift == 0 {
      NewLimb(rp, bits, k, ds, d);
      rp := rp + [d];
      shift := bits;
    } else {
      var rn := |rp|;
      PlaceFactors(shift, bits);
      var g, top := Pow(2, 64 - shift), rp[rn - 1] + (d % Pow(2, 64 - shift)) * Pow(2, shift);
      OrDigit(rp, shift, bits, k, ds, d, top);
      rp := rp[..rn - 1] + [top];
      shift := shift + bits;
      if shift >= 64 {
        shift := shift - 64;
        if shift > 0 {
          HighFitsLimb(d, g);
          rp := rp + [d / g];
        }
      }
    }
  }

  lemma HighFitsLimb(d: Limb, g: nat)
    requires g > 0
    ensures 0 <= d / g < BASE
  {
    DivModIdentity(d, g);
    MulLe(d / g, 1, g);
  }

  /** mpn_normalized_size. */
  method Normalize(rp0: seq<Limb>) returns (rp: seq<Limb>)
    ensures V(rp) == V(rp0) && (rp != [] ==> rp[|rp| - 1] > 0)
  {
    rp := rp0;
    while rp != [] && rp[|rp| - 1] == 0
      invariant V(rp) == V(rp0)
      decreases |rp|
    {
      rp := rp[..|rp| - 1];
    }
  }
}
