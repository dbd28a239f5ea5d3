/** mini-gmp: mpz_get_str and mpz_set_str. */
module TextCode {
  import opened Arith
  import opened Numerals
  import opened Basics
  import opened Limbs
  import opened LimbArrays
  import opened BaseText
  import opened DivisorInverse
  import opened LongDivision
  import opened DigitStrings
  import opened BitStrings

  /** mpn_base_power_of_two_p, for the bases that text can be in. */
  function PowerOfTwoBits(b: nat): (bits: nat)
    ensures bits <= 5 && (bits > 0 ==> b == Pow(2, bits))
  {
    SmallPowers();
    match b
    case 2 => 1
    case 4 => 2
    case 8 => 3
    case 16 => 4
    case 32 => 5
    case _ => 0
  }

  lemma SmallPowers()
    ensures Pow(2, 1) == 2 && Pow(2, 2) == 4 && Pow(2, 3) == 8 && Pow(2, 4) == 16 && Pow(2, 5) == 32
  {
  }

  /** The digits as characters, from one of two tables. */
  method ToChars(sp: seq<nat>, capital: bool) returns (t: string)
    requires forall i :: 0 <= i < |sp| ==> sp[i] < 36
    ensures t == if capital then Upper(DigitChars(sp)) else DigitChars(sp)
  {
    t := "";
    for i := 0 to |sp|
      invariant t == if capital then Upper(DigitChars(sp[..i])) else DigitChars(sp[..i])
    {
      assert sp[..i + 1][..i] == sp[..i];
      t := t + [if capital then UpperChar(DigitChar(sp[i])) else DigitChar(sp[i])];
    }
    assert sp[..|sp|] == sp;
  }

  /** A number of m bits has as many digits of k bits as are needed to hold them. */
  lemma BitsToDigits(n: nat, m: nat, k: nat)
    requires 1 <= k <= 5 && m > 0 && Pow(2, m - 1) <= n < Pow(2, m)
    ensures Pow(2, k) >= 2 && |BeDigits(n, Pow(2, k))| == (m + k - 1) / k
  {
    hide Pow, BeDigits;
    var d := (m + k - 1) / k;
    DivModIdentity(m + k - 1, k);
    assert k * d == d * k && k * (d - 1) == k * d - k;
    BaseAtLeastTwo(k);
    PowOfPow(k, d);
    PowOfPow(k, d - 1);
    PowMono(2, k * (d - 1), m - 1);
    PowMono(2, m, k * d);
    DigitCountExact(n, Pow(2, k), d);
  }

  /** The loop of mpz_sizeinbase: one division by the base for every digit. */
  method CountDigits(tp: array<Limb>, un0: nat, base: Limb, bi: DivInverse) returns (ndigits: nat)
    requires 2 <= base <= 36 && 1 <= un0 <= tp.Length && tp[un0 - 1] > 0 && IsInverseOf(bi, [base])
    modifies tp
    ensures ndigits == |BeDigits(old(V(tp[..un0])), base)|
  {
    hide Val, Pow, BeDigits, IsInverseOf;
    ghost var n := V(tp[..un0]);
    ndigits := 0;
    var un := un0;
    while un > 0
      invariant 0 <= un <= un0 && (un > 0 ==> tp[un - 1] > 0)
      invariant |BeDigits(n, base)| == ndigits + |BeDigits(V(tp[..un]), base)|
      decreases un, V(tp[..un])
    {
      ghost var was := tp[..un];
      TopNotZero(was);
      var r, q := DivQr1Preinv(tp, tp, un, bi, base);
      assert q == tp[0..un] == tp[..un];
      DivModUnique(V(was), base, V(q), r);
      DigitsStep(V(was), base);
      Shrinks(V(was), V(q), base, r, was);
      OneLess(was, q, base, r);
      assert tp[..un][..un - 1] == tp[..un - 1];
      ndigits := ndigits + 1;
      if tp[un - 1] == 0 {
        un := un - 1;
      }
    }
    EmptyVal(BASE);
    NoDigits(base);
    assert tp[..0] == [];
  }

  /** A quotient by one limb has at most one limb less. */
  lemma OneLess(s: seq<Limb>, q: seq<Limb>, d: Limb, r: nat)
    requires |s| == |q| >= 1 && s[|s| - 1] > 0 && V(s) == V(q) * d + r && r < d
    ensures q[|q| - 1] == 0 ==> V(q) == V(q[..|q| - 1]) && (|q| > 1 ==> q[|q| - 2] > 0)
  {
    hide Val, Pow;
    if |s| > 1 {
      StillNormal(s, q, d, r);
    } else if q[0] == 0 {
      assert q == [q[0]] && q[..0] == [];
      ValOne(BASE, q[0]);
      EmptyVal(BASE);
    }
  }

  class Integer {
    var size: int            // _mp_size: how many limbs count, negative for a negative number
    var limbs: seq<Limb>     // _mp_d

    predicate Valid()
      reads this
    {
      Length() <= |limbs| && (size != 0 ==> limbs[Length() - 1] > 0)
    }

    function Length(): nat
      reads this
    {
      if size < 0 then 0 - size else size
    }

    ghost function Value(): int
      requires Valid()
      reads this
    {
      if size < 0 then 0 - V(limbs[..Length()]) else V(limbs[..Length()])
    }

    constructor ()
      ensures Valid() && Value() == 0
    {
      size, limbs := 0, [];
      new;
      EmptyVal(BASE);
    }

    /** mpz_sizeinbase: the number of digits, without the sign. */
    method SizeInBase(base: nat) returns (n: nat)
      requires Valid() && 2 <= base <= 36
      ensures n == |Magnitude(Value(), base)|
    {
      hide Pow, BeDigits;
      var un := Length();
      if un == 0 {
        EmptyVal(BASE);
        return 1;
      }
      TopNotZero(limbs[..un]);
      var size := LimbSizeInBase2(limbs[un - 1]);
      var bits := 64 * (un - 1) + size;
      BitLength(limbs[..un], size);
      var k := PowerOfTwoBits(base);
      if k > 0 {
        BitsToDigits(V(limbs[..un]), bits, k);
        return (bits + k - 1) / k;
      }
      var tp := new Limb[un](i requires 0 <= i < un <= |limbs| reads this => limbs[i]);
      assert tp[..un] == limbs[..un];
      var bi := DivQr1Invert(base);
      n := CountDigits(tp, un, base, bi);
    }

    /** The text, and the room that is allocated for it and its terminator. */
    method GetStr(base0: int) returns (sp: Option<string>, room: nat)
      requires Valid()
      ensures sp == TextFor(Value(), base0)
      ensures sp.Some? ==> |sp.value| + 1 <= room
    {
      hide Pow, BeDigits, DigitChars, Text, Upper, Magnitude;
      var base := if base0 < 0 then 0 - base0 else base0;
      if base <= 1 {
        base := 10;
      }
      if base > 36 {
        return None, 0;
      }
      var sn := SizeInBase(base);
      room := 1 + (1 + sn);
      MagnitudeValue(Value(), base);
      if size != 0 {
        TopNotZero(limbs[..Length()]);
      }
      var text := Characters(base, base0 < 0);
      UpperMinus(DigitChars(Magnitude(Value(), base)));
      sp := Some(if size < 0 then "-" + text else text);
    }

    /** The characters of the magnitude. */
    method Characters(base: nat, capital: bool) returns (text: string)
      requires Valid() && 2 <= base <= 36
      ensures var t := DigitChars(Magnitude(Value(), base)); text == if capital then Upper(t) else t
    {
      hide Pow, BeDigits, DigitChars, Upper;
      var un := Length();
      if un == 0 {
        EmptyVal(BASE);
        OneZero();
        UpperZero();
        return "0";
      }
      TopNotZero(limbs[..un]);
      var bits := PowerOfTwoBits(base);
      var digits;
      if bits > 0 {
        digits := GetStrBits(bits, limbs[..un]);
      } else {
        var info := GetBaseInfo(base);
        var tp := new Limb[un](i requires 0 <= i < un <= |limbs| reads this => limbs[i]);
        assert tp[..un] == limbs[..un];
        digits := GetStrOther(base, info, tp, un);
      }
      text := ToChars(digits, capital);
    }

    /** 0 and the number read, or -1 and zero. */
    method SetStr(text: string, base0: nat) returns (res: int)
      requires base0 == 0 || 2 <= base0 <= 36
      modifies this
      ensures Valid()
      ensures var v := Parse(text, base0);
        if v.Some? then res == 0 && Value() == v.value else res == -1 && Value() == 0
    {
      hide Pow, ReadDigits, SkipSpaces;
      EmptyVal(BASE);
      var sp := Skip(text);
      var sign := sp != [] && sp[0] == '-';
      if sign {
        sp := sp[1..];
      }
      size := 0;
      var (base, prefix) := BaseOf(sp, base0);
      sp := sp[prefix..];
      var dp := Scan(sp, base);
      if dp.None? || dp.value == [] {
        return -1;
      }
      ScannedDigits(sp, base);
      var rp := FromDigits(dp.value, base);
      limbs := rp;
      size := if sign then 0 - |rp| else |rp|;
      assert limbs[..|rp|] == rp;
      res := 0;
    }
  }

  lemma TopNotZero(s: seq<Limb>)
    requires s != [] && s[|s| - 1] > 0
    ensures V(s) > 0
  {
    PowPos(BASE, |s| - 1);
    MulPos(s[|s| - 1], Pow(BASE, |s| - 1));
  }

  lemma UpperMinus(t: string)
    ensures Upper("-" + t) == "-" + Upper(t)
  {
  }

  lemma UpperZero()
    ensures Upper("0") == "0"
  {
  }

  method Skip(text: string) returns (sp: string)
    ensures sp == SkipSpaces(text)
  {
    sp := text;
    while sp != [] && IsSpace(sp[0])
      invariant SkipSpaces(sp) == SkipSpaces(text)
      decreases |sp|
    {
      sp := sp[1..];
    }
  }

  /** The digits of a text, or nothing as soon as a character is no digit of the base. */
  method Scan(sp: string, base: nat) returns (dp: Option<seq<nat>>)
    ensures dp == ReadDigits(sp, base)
  {
    hide CharDigit, IsSpace;
    var digits: seq<nat> := [];
    for i := 0 to |sp|
      invariant ReadDigits(sp[..i], base) == Some(digits)
    {
      assert sp[..i + 1][..i] == sp[..i];
      if !IsSpace(sp[i]) {
        var d := CharDigit(sp[i]);
        if d.None? || d.value >= base {
          BadPrefix(sp, i + 1, base);
          return None;
        }
        digits := digits + [d.value];
      }
    }
    assert sp[..|sp|] == sp;
    dp := Some(digits);
  }

  lemma {:induction false} BadPrefix(sp: string, i: nat, base: nat)
    requires i <= |sp| && ReadDigits(sp[..i], base).None?
    ensures ReadDigits(sp, base).None?
  {
    if i == |sp| {
      assert sp[..i] == sp;
    } else {
      assert sp[..|sp| - 1][..i] == sp[..i];
      BadPrefix(sp[..|sp| - 1], i, base);
    }
  }

  lemma {:induction false} ScannedDigits(sp: string, base: nat)
    ensures var ds := ReadDigits(sp, base); ds.Some? ==> Digits(base, ds.value)
  {
    hide CharDigit, IsSpace;
    if sp != [] {
      ScannedDigits(sp[..|sp| - 1], base);
    }
  }

  method FromDigits(dp: seq<nat>, base: nat) returns (rp: seq<Limb>)
    requires dp != [] && 2 <= base <= 36 && Digits(base, dp)
    ensures V(rp) == BeVal(base, dp) && (rp != [] ==> rp[|rp| - 1] > 0)
  {
    hide Pow, Val, BeVal;
    var bits := PowerOfTwoBits(base);
    if bits > 0 {
      rp := SetStrBits(dp, bits);
    } else {
      var info := GetBaseInfo(base);
      rp := SetStrOther(dp, base, info);
      rp := DropZero(rp);
    }
  }

  /** The normalisation needed when all digits were zero. */
  method DropZero(rp0: seq<Limb>) returns (rp: seq<Limb>)
    requires rp0 != [] && (|rp0| > 1 ==> rp0[|rp0| - 1] > 0)
    ensures V(rp) == V(rp0) && (rp != [] ==> rp[|rp| - 1] > 0)
  {
    rp := rp0;
    var rn := |rp|;
    if rp[rn - 1] == 0 {
      rp := rp[..rn - 1];
    }
  }
}
