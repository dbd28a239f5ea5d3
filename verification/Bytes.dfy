/** Bytes, exclusive or, and byte strings as numbers. Bit operations are defined on integers,
    bit by bit. */
module Bytes {
  import opened Arith
  import opened Numerals

  type Byte = x: nat | x < 256

  /** Exclusive or of the low n bits. */
  function XorBits(a: nat, b: nat, n: nat): nat {
    if n == 0 then 0
    else (if a % 2 == b % 2 then 0 else 1) + 2 * XorBits(a / 2, b / 2, n - 1)
  }

  lemma {:induction false} XorBitsBound(a: nat, b: nat, n: nat)
    ensures XorBits(a, b, n) < Pow(2, n)
  {
    if n > 0 {
      XorBitsBound(a / 2, b / 2, n - 1);
    }
  }

  lemma {:induction false} XorBitsTwice(a: nat, b: nat, n: nat)
    requires a < Pow(2, n)
    ensures XorBits(XorBits(a, b, n), b, n) == a
  {
    if n > 0 {
      var x := XorBits(a, b, n);
      assert x / 2 == XorBits(a / 2, b / 2, n - 1) && x % 2 == if a % 2 == b % 2 then 0 else 1;
      XorBitsTwice(a / 2, b / 2, n - 1);
    }
  }

  lemma {:induction false} XorBitsZero(a: nat, b: nat, n: nat)
    requires a < Pow(2, n) && b < Pow(2, n)
    ensures XorBits(a, b, n) == 0 <==> a == b
  {
    if n > 0 {
      XorBitsZero(a / 2, b / 2, n - 1);
      assert a == 2 * (a / 2) + a % 2 && b == 2 * (b / 2) + b % 2;
    }
  }

  lemma {:induction false} XorBitsCommutes(a: nat, b: nat, n: nat)
    ensures XorBits(a, b, n) == XorBits(b, a, n)
  {
    if n > 0 {
      XorBitsCommutes(a / 2, b / 2, n - 1);
    }
  }

  /** And of the low n bits. */
  function AndBits(a: nat, b: nat, n: nat): (r: nat)
    ensures r <= a
  {
    if n == 0 then 0
    else (if a % 2 == 1 && b % 2 == 1 then 1 else 0) + 2 * AndBits(a / 2, b / 2, n - 1)
  }

  /** Masking with a power of two less one is taking the remainder. */
  lemma {:induction false} MaskIsRemainder(a: nat, k: nat, n: nat)
    requires k <= n
    ensures Pow(2, k) > 0 && AndBits(a, Pow(2, k) - 1, n) == a % Pow(2, k)
  {
    if k == 0 {
      AndZero(a, n);
    } else {
      MaskIsRemainder(a / 2, k - 1, n - 1);
      var p := Pow(2, k - 1);
      assert (2 * p - 1) % 2 == 1 && (2 * p - 1) / 2 == p - 1;
      DoubledRemainder(a, p);
    }
  }

  lemma {:induction false} AndZero(a: nat, n: nat)
    ensures AndBits(a, 0, n) == 0
  {
    if n > 0 {
      AndZero(a / 2, n - 1);
    }
  }

  lemma DoubledRemainder(a: nat, p: nat)
    requires p > 0
    ensures a % (2 * p) == a % 2 + 2 * ((a / 2) % p)
  {
    var h := a / 2;
    DivModIdentity(h, p);
    assert a == (h / p) * (2 * p) + (a % 2 + 2 * (h % p));
    DivModUnique(a, 2 * p, h / p, a % 2 + 2 * (h % p));
  }

  lemma EightBits()
    ensures Pow(2, 8) == 256
  {
  }

  /** C's `^` on unsigned char. */
  function Xor(a: Byte, b: Byte): Byte {
    EightBits();
    XorBitsBound(a, b, 8);
    XorBits(a, b, 8)
  }

  lemma XorTwice(a: Byte, b: Byte)
    ensures Xor(Xor(a, b), b) == a
  {
    EightBits();
    XorBitsTwice(a, b, 8);
  }

  lemma XorZero(a: Byte, b: Byte)
    ensures Xor(a, b) == 0 <==> a == b
  {
    EightBits();
    XorBitsZero(a, b, 8);
  }

  lemma XorCommutes(a: Byte, b: Byte)
    ensures Xor(a, b) == Xor(b, a)
  {
    XorBitsCommutes(a, b, 8);
  }

  lemma {:induction false} XorBitsAssoc(a: nat, b: nat, c: nat, n: nat)
    ensures XorBits(XorBits(a, b, n), c, n) == XorBits(a, XorBits(b, c, n), n)
  {
    if n > 0 {
      var x, y := XorBits(a, b, n), XorBits(b, c, n);
      assert x / 2 == XorBits(a / 2, b / 2, n - 1) && x % 2 == if a % 2 == b % 2 then 0 else 1;
      assert y / 2 == XorBits(b / 2, c / 2, n - 1) && y % 2 == if b % 2 == c % 2 then 0 else 1;
      XorBitsAssoc(a / 2, b / 2, c / 2, n - 1);
    }
  }

  lemma XorAssoc(a: Byte, b: Byte, c: Byte)
    ensures Xor(Xor(a, b), c) == Xor(a, Xor(b, c))
  {
    XorBitsAssoc(a, b, c, 8);
  }
}
