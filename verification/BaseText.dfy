/** Numbers as text in a base from 2 to 36: what mpz_get_str writes and mpz_set_str reads. */
module BaseText {
  import opened Arith
  import opened Numerals
  import opened Basics

  /** The digits of n, most significant first, without leading zeros. */
  function BeDigits(n: nat, b: nat): (s: seq<nat>)
    requires b >= 2
    ensures forall i :: 0 <= i < |s| ==> s[i] < b
    ensures n > 0 ==> s != [] && s[0] > 0
    decreases n
  {
    if n == 0 then [] else BeDigits(n / b, b) + [n % b]
  }

  function BeVal(b: nat, s: seq<nat>): nat {
    if s == [] then 0 else BeVal(b, s[..|s| - 1]) * b + s[|s| - 1]
  }

  lemma BeValSnoc(b: nat, s: seq<nat>, d: nat)
    ensures BeVal(b, s + [d]) == BeVal(b, s) * b + d
  {
    assert (s + [d])[..|s|] == s;
  }

  lemma QuotientSmaller(n: nat, b: nat)
    requires b >= 2 && n > 0
    ensures 0 <= n / b < n && n == (n / b) * b + n % b
  {
    DivModIdentity(n, b);
    MulPos(n / b, b - 2);
    assert (n / b) * b == (n / b) * (b - 2) + 2 * (n / b);
  }

  lemma DigitsStep(n: nat, b: nat)
    requires b >= 2 && n > 0
    ensures BeDigits(n, b) == BeDigits(n / b, b) + [n % b]
  {
  }

  lemma {:induction false} BeValDigits(n: nat, b: nat)
    requires b >= 2
    ensures BeVal(b, BeDigits(n, b)) == n
    decreases n
  {
    if n > 0 {
      hide BeVal, BeDigits;
      QuotientSmaller(n, b);
      DigitsStep(n, b);
      BeValDigits(n / b, b);
      BeValSnoc(b, BeDigits(n / b, b), n % b);
    }
  }

  /** A number below b^k has at most k digits. */
  lemma {:induction false} DigitCount(n: nat, b: nat, k: nat)
    requires b >= 2 && n < Pow(b, k)
    ensures |BeDigits(n, b)| <= k
    decreases k
  {
    if k == 0 {
      assert Pow(b, 0) == 1;
    } else if n > 0 {
      hide BeDigits, Pow;
      QuotientSmaller(n, b);
      DigitsStep(n, b);
      PowStep(b, k - 1);
      CancelLt(b, n / b, Pow(b, k - 1));
      DigitCount(n / b, b, k - 1);
    }
  }

  /** And one of at least b^(k-1) has no fewer. */
  lemma {:induction false} DigitCountExact(n: nat, b: nat, k: nat)
    requires b >= 2 && k > 0 && Pow(b, k - 1) <= n < Pow(b, k)
    ensures |BeDigits(n, b)| == k
    decreases k
  {
    hide BeDigits, Pow;
    PowPos(b, k - 1);
    QuotientSmaller(n, b);
    DigitsStep(n, b);
    PowStep(b, k - 1);
    CancelLt(b, n / b, Pow(b, k - 1));
    if k == 1 {
      PowZero(b);
      NoDigits(b);
    } else {
      PowStep(b, k - 2);
      QuotientAtLeast(n, b, Pow(b, k - 2));
      DigitCountExact(n / b, b, k - 1);
    }
  }

  lemma NoDigits(b: nat)
    requires b >= 2
    ensures BeDigits(0, b) == []
  {
  }

  lemma QuotientAtLeast(n: nat, b: nat, q: nat)
    requires b > 0 && n >= b * q
    ensures n / b >= q
  {
    DivModIdentity(n, b);
    CancelLt(b, q, n / b + 1);
  }

  // ---- characters ----

  function DigitChar(d: nat): (c: char)
    requires d < 36
    ensures IsDigitChar(c)
  {
    if d < 10 then '0' + d as char else 'a' + (d - 10) as char
  }

  predicate IsDigitChar(c: char) {
    '0' <= c <= '9' || 'a' <= c <= 'z'
  }

  predicate IsSpace(c: char) {
    c == ' ' || ('\t' <= c <= '\r')
  }

  function CharDigit(c: char): Option<nat> {
    if '0' <= c <= '9' then Some((c - '0') as nat)
    else if 'a' <= c <= 'z' then Some((c - 'a') as nat + 10)
    else if 'A' <= c <= 'Z' then Some((c - 'A') as nat + 10)
    else None
  }

  lemma CharDigitRoundTrip(d: nat)
    requires d < 36
    ensures CharDigit(DigitChar(d)) == Some(d) && !IsSpace(DigitChar(d))
  {
  }

  function DigitChars(s: seq<nat>): (t: string)
    requires forall i :: 0 <= i < |s| ==> s[i] < 36
    ensures |t| == |s| && forall i :: 0 <= i < |t| ==> IsDigitChar(t[i])
  {
    if s == [] then "" else DigitChars(s[..|s| - 1]) + [DigitChar(s[|s| - 1])]
  }

  // ---- text ----

  /** What mpz_get_str returns for u in base b. */
  function Text(u: int, b: nat): (t: string)
    requires 2 <= b <= 36
    ensures t != []
    ensures forall i :: 0 <= i < |t| ==> IsDigitChar(t[i]) || t[i] == '-'
  {
    if u == 0 then "0"
    else if u < 0 then "-" + DigitChars(BeDigits(0 - u, b))
    else DigitChars(BeDigits(u, b))
  }

  /** The digits of a text, spaces skipped; nothing when a character is no digit of the base. */
  function ReadDigits(t: string, b: nat): Option<seq<nat>> {
    if t == [] then Some([])
    else
      var rest := ReadDigits(t[..|t| - 1], b);
      var c := t[|t| - 1];
      if rest.None? then None
      else if IsSpace(c) then rest
      else
        var d := CharDigit(c);
        if d.Some? && d.value < b then Some(rest.value + [d.value]) else None
  }

  function SkipSpaces(t: string): string {
    if t != [] && IsSpace(t[0]) then SkipSpaces(t[1..]) else t
  }

  /** The base of the digits of s and the length of the prefix that says so, for base 0. */
  function BaseOf(s: string, b: nat): (r: (nat, nat))
    requires b == 0 || 2 <= b <= 36
    ensures 2 <= r.0 <= 36 && r.1 <= |s| && (b != 0 ==> r == (b, 0))
  {
    if b != 0 then (b, 0)
    else if s == [] || s[0] != '0' then (10, 0)
    else if |s| > 1 && (s[1] == 'x' || s[1] == 'X') then (16, 2)
    else if |s| > 1 && (s[1] == 'b' || s[1] == 'B') then (2, 2)
    else (8, 0)
  }

  /** What mpz_set_str reads from t in base b; nothing stands for its return value -1. */
  function Parse(t: string, b: nat): Option<int>
    requires b == 0 || 2 <= b <= 36
  {
    var s := SkipSpaces(t);
    var neg := s != [] && s[0] == '-';
    var u := if neg then s[1..] else s;
    var (base, k) := BaseOf(u, b);
    var ds := ReadDigits(u[k..], base);
    if ds.None? || ds.value == [] then None
    else Some(if neg then 0 - BeVal(base, ds.value) else BeVal(base, ds.value))
  }

  lemma {:induction false} ReadDigitChars(s: seq<nat>, b: nat)
    requires b <= 36 && forall i :: 0 <= i < |s| ==> s[i] < b
    ensures ReadDigits(DigitChars(s), b) == Some(s)
  {
    if s != [] {
      var n := |s| - 1;
      ReadDigitChars(s[..n], b);
      CharDigitRoundTrip(s[n]);
      var t := DigitChars(s);
      assert t[..n] == DigitChars(s[..n]) && t[n] == DigitChar(s[n]);
      assert s == s[..n] + [s[n]];
    }
  }

  /** Digits behind a prefix, or none, are read as their value, with or without a minus sign. */
  lemma ParseFrom(u: string, b: nat, ds: seq<nat>)
    requires (b == 0 || 2 <= b <= 36) && u != [] && IsDigitChar(u[0]) && ds != []
    requires var (base, k) := BaseOf(u, b); (forall i :: 0 <= i < |ds| ==> ds[i] < base) && u[k..] == DigitChars(ds)
    ensures Parse(u, b) == Some(BeVal(BaseOf(u, b).0, ds))
    ensures Parse("-" + u, b) == Some(0 - BeVal(BaseOf(u, b).0, ds))
  {
    hide ReadDigits, DigitChars, BeVal, BaseOf;
    ReadDigitChars(ds, BaseOf(u, b).0);
    NoSpaces(u);
    NoSpaces("-" + u);
    assert ("-" + u)[1..] == u;
  }

  lemma NoSpaces(t: string)
    requires t != [] && !IsSpace(t[0])
    ensures SkipSpaces(t) == t
  {
  }

  lemma {:induction false} DigitCharAt(s: seq<nat>, i: nat)
    requires i < |s| && forall j :: 0 <= j < |s| ==> s[j] < 36
    ensures DigitChars(s)[i] == DigitChar(s[i])
  {
    if i < |s| - 1 {
      DigitCharAt(s[..|s| - 1], i);
    }
  }

  lemma ParseDigits(ds: seq<nat>, b: nat)
    requires 2 <= b <= 36 && ds != [] && forall i :: 0 <= i < |ds| ==> ds[i] < b
    ensures Parse(DigitChars(ds), b) == Some(BeVal(b, ds))
    ensures Parse("-" + DigitChars(ds), b) == Some(0 - BeVal(b, ds))
  {
    hide Parse, DigitChars, BeVal;
    var t := DigitChars(ds);
    assert t[0..] == t;
    ParseFrom(t, b, ds);
  }

  /** The digits that Text writes for the magnitude of a number. */
  function Magnitude(u: int, b: nat): (ds: seq<nat>)
    requires 2 <= b <= 36
    ensures ds != [] && forall i :: 0 <= i < |ds| ==> ds[i] < b
  {
    if u == 0 then [0] else BeDigits(if u < 0 then 0 - u else u, b)
  }

  lemma OneZero()
    ensures DigitChars([0]) == "0" && forall b :: BeVal(b, [0]) == 0
  {
    assert DigitChars([0]) == DigitChars([0][..0]) + [DigitChar(0)] == "0";
    forall b
      ensures BeVal(b, [0]) == 0
    {
      assert [0][..0] == [];
    }
  }

  lemma MagnitudeValue(u: int, b: nat)
    requires 2 <= b <= 36
    ensures BeVal(b, Magnitude(u, b)) == if u < 0 then 0 - u else u
    ensures Text(u, b) == if u < 0 then "-" + DigitChars(Magnitude(u, b)) else DigitChars(Magnitude(u, b))
  {
    hide BeDigits, BeVal;
    if u == 0 {
      OneZero();
    } else {
      BeValDigits(if u < 0 then 0 - u else u, b);
    }
  }

  /** Reading back what was written gives the number, in every base. */
  lemma ParseText(u: int, b: nat)
    requires 2 <= b <= 36
    ensures Parse(Text(u, b), b) == Some(u)
  {
    hide Parse, Text, DigitChars, BeVal, Magnitude;
    MagnitudeValue(u, b);
    ParseDigits(Magnitude(u, b), b);
  }

  // ---- upper case, and base 0 ----

  function UpperChar(c: char): char {
    if 'a' <= c <= 'z' then 'A' + (c - 'a') else c
  }

  function Upper(t: string): (u: string)
    ensures |u| == |t|
  {
    seq(|t|, i requires 0 <= i < |t| => UpperChar(t[i]))
  }

  /** mpz_get_str writes capital letters for a negative base, and base 10 for no base at all. */
  function BaseUsed(base: int): nat {
    if base < -1 then 0 - base else if base <= 1 then 10 else base
  }

  function TextFor(u: int, base: int): Option<string> {
    var b := BaseUsed(base);
    if b > 36 then None
    else Some(if base < 0 then Upper(Text(u, b)) else Text(u, b))
  }

  lemma {:induction false} DigitsIgnoreCase(t: string, b: nat)
    ensures ReadDigits(Upper(t), b) == ReadDigits(t, b)
  {
    if t != [] {
      var n := |t| - 1;
      DigitsIgnoreCase(t[..n], b);
      assert Upper(t)[..n] == Upper(t[..n]);
    }
  }

  lemma {:induction false} SpacesIgnoreCase(t: string)
    ensures SkipSpaces(Upper(t)) == Upper(SkipSpaces(t))
  {
    if t != [] {
      SpacesIgnoreCase(t[1..]);
      assert Upper(t)[1..] == Upper(t[1..]);
    }
  }

  /** Reading does not depend on the case of the letters, the prefix included. */
  lemma ParseIgnoresCase(t: string, b: nat)
    requires b == 0 || 2 <= b <= 36
    ensures Parse(Upper(t), b) == Parse(t, b)
  {
    hide SkipSpaces, ReadDigits, BeVal;
    SpacesIgnoreCase(t);
    var s := SkipSpaces(t);
    var neg := s != [] && s[0] == '-';
    var u := if neg then s[1..] else s;
    assert neg ==> Upper(s)[1..] == Upper(u);
    var (base, k) := BaseOf(u, b);
    assert BaseOf(Upper(u), b) == (base, k);
    assert Upper(u)[k..] == Upper(u[k..]);
    DigitsIgnoreCase(u[k..], base);
  }

  /** Whatever the base mpz_get_str is called with, its text is read back in the base used. */
  lemma TextReadBack(u: int, base: int)
    ensures var t := TextFor(u, base); t.Some? ==> Parse(t.value, BaseUsed(base)) == Some(u)
  {
    hide Parse, Text, Upper;
    if BaseUsed(base) <= 36 {
      ParseText(u, BaseUsed(base));
      ParseIgnoresCase(Text(u, BaseUsed(base)), BaseUsed(base));
    }
  }

  /** Base 0 reads decimal text as it is, and the other bases behind their prefix. */
  lemma ParseBaseZero(u: int)
    ensures Parse(Text(u, 10), 0) == Some(u)
    ensures var t := DigitChars(Magnitude(u, 16)); Parse(if u < 0 then "-" + ("0x" + t) else "0x" + t, 0) == Some(u)
    ensures var t := DigitChars(Magnitude(u, 2)); Parse(if u < 0 then "-" + ("0b" + t) else "0b" + t, 0) == Some(u)
    ensures var t := DigitChars(Magnitude(u, 8)); Parse(if u < 0 then "-" + ("0" + t) else "0" + t, 0) == Some(u)
  {
    hide Parse, Text, DigitChars, BeVal, Magnitude, BeDigits;
    DecimalBaseZero(u);
    PrefixBaseZero(u, "0x", 16);
    PrefixBaseZero(u, "0b", 2);
    OctalBaseZero(u);
  }

  lemma DecimalBaseZero(u: int)
    ensures Parse(Text(u, 10), 0) == Some(u)
  {
    hide Parse, Text, DigitChars, BeVal, BeDigits, ReadDigits;
    var ds := Magnitude(u, 10);
    var t := DigitChars(ds);
    MagnitudeValue(u, 10);
    DigitCharAt(ds, 0);
    assert t[0..] == t;
    ParseFrom(t, 0, ds);
    if u == 0 {
      OneZero();
    }
  }

  lemma PrefixBaseZero(u: int, prefix: string, b: nat)
    requires (prefix == "0x" && b == 16) || (prefix == "0b" && b == 2)
    ensures var t := prefix + DigitChars(Magnitude(u, b)); Parse(if u < 0 then "-" + t else t, 0) == Some(u)
  {
    hide Parse, DigitChars, BeVal, Magnitude;
    var ds := Magnitude(u, b);
    var t := prefix + DigitChars(ds);
    MagnitudeValue(u, b);
    assert t[2..] == DigitChars(ds);
    ParseFrom(t, 0, ds);
  }

  lemma OctalBaseZero(u: int)
    ensures var t := "0" + DigitChars(Magnitude(u, 8)); Parse(if u < 0 then "-" + t else t, 0) == Some(u)
  {
    hide Parse, DigitChars, BeVal, Magnitude;
    var ds := Magnitude(u, 8);
    var t := "0" + DigitChars(ds);
    MagnitudeValue(u, 8);
    LeadingZero(ds, 8);
    DigitCharAt(ds, 0);
    assert t[1] == DigitChar(ds[0]) && t[0..] == t;
    ParseFrom(t, 0, [0] + ds);
  }

  lemma {:induction false} LeadingZero(ds: seq<nat>, b: nat)
    requires forall i :: 0 <= i < |ds| ==> ds[i] < 36
    ensures DigitChars([0] + ds) == "0" + DigitChars(ds) && BeVal(b, [0] + ds) == BeVal(b, ds)
  {
    if ds == [] {
      OneZero();
      assert [0] + ds == [0];
    } else {
      var n := |ds| - 1;
      LeadingZero(ds[..n], b);
      assert ([0] + ds)[..n + 1] == [0] + ds[..n];
    }
  }
}
