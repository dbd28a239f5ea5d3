/** The public-key scheme of ma.c: key generation, encryption, decryption. */
module Lattice {
  import opened Arith
  import opened Numerals
  import opened Congruence
  import opened Bytes
  import Gcd

  type UInt32 = x: nat | x < 0x1_0000_0000

  const TABLE_LEN: nat := 256
  type Table = s: seq<int> | |s| == TABLE_LEN witness seq(TABLE_LEN, _ => 0)

  /** The DTLS_MA_ constants, with t, q and r in place of their bit sizes. */
  datatype Params = Params(rows: nat, columns: nat, t: nat, q: nat, r: nat, w: nat, wMin: nat)

  const CONFIGURED := Params(74, 13, 0x1_0000, 0x1_0000_0000, 0x100, 86, 60)

  ghost predicate ValidParams(pp: Params) {
    0 < pp.rows <= 256 && 0 < pp.t && 0 < pp.r && 0 < pp.w && 0 < pp.q && exists n: nat :: pp.q == Pow(2, n)
  }

  datatype PrivateKey = PrivateKey(sk: nat, skInvP: int, p: nat, k: seq<int>)
  datatype PublicKey = PublicKey(bias: UInt32, element: seq<int>)
  datatype Cipher = Cipher(element: seq<int>, tail: int)

  // ---- dtls_ma_generate_private_key ----

  /** What the generator checks: sk is odd, has an inverse modulo p, and the noise
      cannot carry sk * v past q. */
  ghost predicate ValidKey(pp: Params, key: PrivateKey) {
    && |key.k| == pp.columns
    && key.sk % 2 == 1
    && pp.t < key.p
    && key.sk * (pp.t - 1) + (pp.w * pp.r) * key.p < pp.q
    && (key.skInvP * key.sk) % key.p == 1
  }

  /** The odd offset of p above t, from one random draw; `a` is the exclusive bound. */
  function Offset(draw: nat, a: nat): (b: int)
    requires a > 1
    ensures b % 2 == 1 && 0 < b < a && b - 1 <= draw % a <= b + 1
  {
    var b := draw % a;
    if b % 2 == 0 then
      if b + 1 >= a then b + 1 - 2 else b + 1
    else
      b
  }

  /** One candidate for p with the inverse test. */
  method TryModulus(pp: Params, sk: nat, draw: Byte, a: nat) returns (ok: bool, p: nat, inv: int)
    requires a > 1 && pp.t > 0
    ensures p == pp.t + Offset(draw, a)
    ensures ok ==> (inv * sk) % p == 1
    ensures !ok ==> !Gcd.Coprime(sk, p)
  {
    p := pp.t + Offset(draw, a);
    var found: bool;
    found, inv := Gcd.Invert(sk, p, 3);
    ok := (inv * sk) % p == 1;
  }

  /** The exclusive bound on the offset, or nothing when the parameters are too tight. */
  function Room(pp: Params, sk: nat): (a: int)
    requires pp.w > 0 && pp.r > 0
  {
    MulPos(pp.r, pp.w);
    (pp.q - (pp.t - 1) * sk) / (pp.r * pp.w) - pp.t
  }

  lemma RoomBound(pp: Params, sk: nat, p: nat)
    requires pp.w > 0 && pp.r > 0 && p < pp.t + Room(pp, sk)
    ensures sk * (pp.t - 1) + (pp.w * pp.r) * p < pp.q
  {
    MulPos(pp.r, pp.w);
    var c, n := pp.r * pp.w, pp.q - (pp.t - 1) * sk;
    assert n == c * (n / c) + n % c;
    MulLe(c, p + 1, n / c);
  }

  /** And no larger bound would do. */
  lemma RoomIsTight(pp: Params, sk: nat, p: nat)
    requires pp.w > 0 && pp.r > 0 && p > pp.t + Room(pp, sk)
    ensures sk * (pp.t - 1) + (pp.w * pp.r) * p > pp.q
  {
    MulPos(pp.r, pp.w);
    var c, n := pp.r * pp.w, pp.q - (pp.t - 1) * sk;
    assert n == c * (n / c) + n % c;
    MulLe(c, n / c + 1, p);
  }

  /** The generator, fed with its random bytes: it fails when the parameters leave no
      room for the noise, or when no draw gives a modulus that sk is invertible for. */
  method GeneratePrivateKey(pp: Params, skDraw: Byte, draws: seq<Byte>, k: seq<int>)
    returns (ok: bool, key: PrivateKey)
    requires ValidParams(pp) && |k| == pp.columns
    ensures ok ==> ValidKey(pp, key) && key.sk == 2 * skDraw + 1 && key.k == k
    ensures !ok ==> Room(pp, 2 * skDraw + 1) < 0xFF || AllRejected(pp, 2 * skDraw + 1, draws)
  {
    hide ValidKey, Room, Offset, Gcd.Coprime;
    var sk := 2 * skDraw + 1;
    key := PrivateKey(sk, 0, pp.t, k);
    ok := false;
    var a := Room(pp, sk);
    if (pp.t - 1) * sk >= pp.q {
      NoRoom(pp, sk);
      return;
    }
    if a < 0xFF {
      return;
    }
    var i := 0;
    while i < |draws| && !ok
      invariant 0 <= i <= |draws|
      invariant ok ==> ValidKey(pp, key) && key.sk == sk && key.k == k
      invariant !ok ==> AllRejected(pp, sk, draws[..i])
    {
      ok, key := TryKey(pp, sk, draws[i], a, k);
      i := i + 1;
    }
    assert draws[..|draws|] == draws;
  }

  method TryKey(pp: Params, sk: nat, draw: Byte, a: nat, k: seq<int>) returns (ok: bool, key: PrivateKey)
    requires ValidParams(pp) && a == Room(pp, sk) > 1 && sk % 2 == 1 && |k| == pp.columns
    ensures ok ==> ValidKey(pp, key) && key.sk == sk && key.k == k
    ensures !ok ==> !Gcd.Coprime(sk, pp.t + Offset(draw, a))
  {
    var p, inv;
    ok, p, inv := TryModulus(pp, sk, draw, a);
    RoomBound(pp, sk, p);
    key := PrivateKey(sk, inv, p, k);
  }

  lemma NoRoom(pp: Params, sk: nat)
    requires pp.w > 0 && pp.r > 0 && pp.t > 0 && (pp.t - 1) * sk >= pp.q
    ensures Room(pp, sk) < 0xFF
  {
    MulPos(pp.r, pp.w);
    var c, n := pp.r * pp.w, pp.q - (pp.t - 1) * sk;
    assert n == c * (n / c) + n % c;
    if n / c > 0 {
      MulLe(c, 1, n / c);
    }
  }

  ghost predicate AllRejected(pp: Params, sk: nat, draws: seq<Byte>)
    requires ValidParams(pp)
  {
    Room(pp, sk) > 1 && forall j :: 0 <= j < |draws| ==> !Gcd.Coprime(sk, pp.t + Offset(draws[j], Room(pp, sk)))
  }

  // ---- the public matrix ----

  /** The table index as key generation computes it, in 32-bit arithmetic. */
  function KeyIndex(i: nat, j: nat, bias: UInt32): nat {
    ((i + ((j + 1) * bias) % 0x1_0000_0000) % 0x1_0000_0000) % TABLE_LEN
  }

  /** The table index as encryption computes it, in 64-bit arithmetic. */
  function CipherIndex(a: nat, i: nat, bias: UInt32): nat {
    ((a + ((i + 1) * bias) % 0x1_0000_0000_0000_0000) % 0x1_0000_0000_0000_0000) % TABLE_LEN
  }

  /** Both widths give the same entry. */
  lemma SameIndex(i: nat, j: nat, bias: UInt32)
    ensures KeyIndex(i, j, bias) == CipherIndex(i, j, bias) == (i + (j + 1) * bias) % TABLE_LEN
  {
    NarrowIndex(i, (j + 1) * bias, 0x1_0000_0000, 0x100_0000);
    NarrowIndex(i, (j + 1) * bias, 0x1_0000_0000_0000_0000, 0x100_0000_0000_0000);
  }

  lemma NarrowIndex(i: nat, x: int, m: nat, c: nat)
    requires m > 0 && m == c * TABLE_LEN
    ensures ((i + x % m) % m) % TABLE_LEN == (i + x) % TABLE_LEN
  {
    var y := i + x % m;
    assert x == m * (x / m) + x % m && y == m * (y / m) + y % m;
    assert i + x == y % m + (c * (y / m) + c * (x / m)) * TABLE_LEN;
    ModPlusMultiple(y % m, c * (y / m) + c * (x / m), TABLE_LEN);
  }

  function Entry(table: Table, bias: UInt32, i: nat, j: nat): int {
    table[KeyIndex(i, j, bias)]
  }

  /** The first n terms of the product of the secret vector with row i. */
  function Row(k: seq<int>, table: Table, bias: UInt32, i: nat, n: nat): int
    requires n <= |k|
  {
    if n == 0 then 0 else Row(k, table, bias, i, n - 1) + k[n - 1] * Entry(table, bias, i, n - 1)
  }

  // ---- dtls_ma_get_public_key ----

  /** Row i of the public key: the product with the secret, less the masked error. */
  function PublicElement(pp: Params, key: PrivateKey, skInvQ: int, table: Table, bias: UInt32, i: nat, e: nat): int
    requires pp.q > 0 && |key.k| == pp.columns
  {
    (Row(key.k, table, bias, i, pp.columns) - ((skInvQ * key.p) * e) % pp.q) % pp.q
  }

  ghost predicate IsPublicKey(pp: Params, key: PrivateKey, table: Table, errors: seq<nat>, pub: PublicKey)
    requires pp.q > 0 && |key.k| == pp.columns
  {
    && |pub.element| == |errors| == pp.rows
    && (forall i :: 0 <= i < pp.rows ==> errors[i] < pp.r)
    && exists skInvQ: int :: IsMaskedBy(pp, key, skInvQ, table, errors, pub)
  }

  /** skInvQ is the inverse of sk modulo q, and every row is masked with it. */
  ghost predicate IsMaskedBy(pp: Params, key: PrivateKey, skInvQ: int, table: Table, errors: seq<nat>, pub: PublicKey)
    requires pp.q > 0 && |key.k| == pp.columns
  {
    && |pub.element| == |errors|
    && Cong(skInvQ * key.sk, 1, pp.q)
    && forall i :: 0 <= i < |errors| ==>
         pub.element[i] == PublicElement(pp, key, skInvQ, table, pub.bias, i, errors[i])
  }

  /** An odd number is coprime to every power of two. */
  lemma {:induction false} OddCoprime(sk: nat, n: nat)
    requires sk % 2 == 1
    ensures Gcd.Coprime(sk, Pow(2, n))
  {
    Gcd.DividesBy(1, sk, sk);
    Gcd.DividesBy(1, Pow(2, n), Pow(2, n));
    forall c: nat | Gcd.DividesInt(c, sk) && Gcd.DividesInt(c, Pow(2, n))
      ensures Gcd.DividesInt(c, 1)
    {
      OddDivisor(sk, c, n);
    }
  }

  lemma {:induction false} OddDivisor(sk: nat, c: nat, n: nat)
    requires sk % 2 == 1 && Gcd.DividesInt(c, sk) && Gcd.DividesInt(c, Pow(2, n))
    ensures Gcd.DividesInt(c, 1)
  {
    if n > 0 {
      var i :| sk == Gcd.Times(i, c);
      var j :| Pow(2, n) == Gcd.Times(j, c);
      assert c % 2 == 1 && j % 2 == 0 by {
        OddFactors(i, c);
        OddFactors(j, c);
      }
      assert Pow(2, n - 1) == (j / 2) * c by { assert j == 2 * (j / 2); HalfProduct(j / 2, c, Pow(2, n - 1)); }
      Gcd.DividesBy(c, Pow(2, n - 1), j / 2);
      OddDivisor(sk, c, n - 1);
    }
  }

  lemma HalfProduct(h: int, c: int, x: int)
    ensures (2 * h) * c == 2 * x ==> h * c == x
  {
    assert (2 * h) * c == 2 * (h * c);
  }

  lemma OddFactors(i: int, c: int)
    ensures (i * c) % 2 == 1 <==> i % 2 == 1 && c % 2 == 1
  {
    var k, l := i / 2, c / 2;
    Gcd.EvenPart(i, c, k, i % 2, l, c % 2);
  }

  method GetPublicKey(pp: Params, key: PrivateKey, table: Table, biasDraw: UInt32, errorDraws: seq<nat>)
    returns (pub: PublicKey, ghost errors: seq<nat>)
    requires ValidParams(pp) && ValidKey(pp, key) && |errorDraws| == pp.rows
    ensures IsPublicKey(pp, key, table, errors, pub) && pub.bias > 0
    ensures forall i :: 0 <= i < pp.rows ==> errors[i] == errorDraws[i] % pp.r
  {
    var bias: UInt32 := if biasDraw == 0 then 1 else biasDraw;
    var found, inv := Gcd.Invert(key.sk, pp.q, 0);
    InverseExists(pp, key, found, inv);
    var skInvQ := inv * key.p;
    var element: seq<int> := [];
    errors := [];
    for i := 0 to pp.rows
      invariant |element| == |errors| == i
      invariant forall j :: 0 <= j < i ==> errors[j] == errorDraws[j] % pp.r < pp.r
      invariant forall j :: 0 <= j < i ==> element[j] == PublicElement(pp, key, inv, table, bias, j, errors[j])
    {
      var leftSum := RowSum(pp, key, table, bias, i);
      var e := errorDraws[i] % pp.r;
      var a := (skInvQ * e) % pp.q;
      element := element + [(leftSum - a) % pp.q];
      errors := errors + [e];
    }
    pub := PublicKey(bias, element);
    assert IsMaskedBy(pp, key, inv, table, errors, pub);
  }

  method RowSum(pp: Params, key: PrivateKey, table: Table, bias: UInt32, i: nat) returns (leftSum: int)
    requires |key.k| == pp.columns
    ensures leftSum == Row(key.k, table, bias, i, pp.columns)
  {
    leftSum := 0;
    for j := 0 to pp.columns
      invariant leftSum == Row(key.k, table, bias, i, j)
    {
      leftSum := leftSum + key.k[j] * table[KeyIndex(i, j, bias)];
    }
  }

  lemma InverseExists(pp: Params, key: PrivateKey, found: bool, inv: int)
    requires ValidParams(pp) && ValidKey(pp, key)
    requires found <==> Abs(pp.q) > 1 && Gcd.Coprime(key.sk, pp.q)
    requires found ==> 0 < inv < pp.q && (inv * key.sk) % Abs(pp.q) == 1
    ensures pp.q > 1 && found && Cong(inv * key.sk, 1, pp.q)
  {
    var n: nat :| pp.q == Pow(2, n);
    OddCoprime(key.sk, n);
    MulPos(key.sk, pp.t - 1);
    MulPos(pp.w, pp.r);
    MulLe(key.p, 1, pp.w * pp.r);
    DivModUnique(1, pp.q, 0, 1);
    CongResidue(inv * key.sk, 1, pp.q);
  }

  // ---- dtls_ma_enc ----

  /** How many rows one encryption adds up. */
  function Selection(pp: Params, draw: nat): (sel: nat)
    requires pp.w > 0
    ensures sel <= pp.w && (pp.wMin <= pp.w ==> EnoughRows(pp, sel))
  {
    var sel := draw % pp.w;
    if sel < pp.wMin then pp.w - sel else sel
  }

  /** No encryption adds up few rows. */
  predicate EnoughRows(pp: Params, sel: nat) {
    pp.wMin > 0 ==> sel >= pp.wMin || sel > pp.w - pp.wMin
  }

  /** The draws that give a count: the count itself from wMin on, and what is missing to w below. */
  lemma SelectionFrom(pp: Params, draw: nat, sel: nat)
    requires 0 < pp.wMin <= pp.w
    ensures Selection(pp, draw) == sel <==>
      (sel >= pp.wMin && draw % pp.w == sel) || (sel <= pp.w && pp.w - sel < pp.wMin && draw % pp.w == pp.w - sel)
  {
    ModRange(draw, pp.w);
  }

  lemma ModRange(n: nat, d: nat)
    requires d > 0
    ensures 0 <= n % d < d
  {
  }

  /** The rows that the draws select. */
  function RowsOf(pp: Params, selDraw: nat, rowDraws: seq<Byte>): (alpha: seq<nat>)
    requires pp.w > 0 && pp.rows > 0 && |rowDraws| == pp.w
    ensures |alpha| == Selection(pp, selDraw) && forall s :: 0 <= s < |alpha| ==> alpha[s] < pp.rows
  {
    seq(Selection(pp, selDraw), s requires 0 <= s < Selection(pp, selDraw) => rowDraws[s] % pp.rows)
  }

  function Column(table: Table, bias: UInt32, alpha: seq<nat>, j: nat): int {
    if alpha == [] then 0
    else Column(table, bias, alpha[..|alpha| - 1], j) + Entry(table, bias, alpha[|alpha| - 1], j)
  }

  function PartialV(element: seq<int>, alpha: seq<nat>): int
    requires forall s :: 0 <= s < |alpha| ==> alpha[s] < |element|
  {
    if alpha == [] then 0 else PartialV(element, alpha[..|alpha| - 1]) + element[alpha[|alpha| - 1]]
  }

  /** The cipher of v for the selected rows. */
  ghost predicate IsCipher(pp: Params, table: Table, pub: PublicKey, alpha: seq<nat>, v: int, c: Cipher)
    requires pp.q > 0 && forall s :: 0 <= s < |alpha| ==> alpha[s] < |pub.element|
  {
    && |c.element| == pp.columns
    && (forall j :: 0 <= j < pp.columns ==> c.element[j] == Column(table, pub.bias, alpha, j))
    && c.tail == (v - PartialV(pub.element, alpha)) % pp.q
  }

  /** Encrypts v, which the caller finds reduced modulo t afterwards. */
  method Encrypt(pp: Params, table: Table, pub: PublicKey, v: int, selDraw: nat, rowDraws: seq<Byte>)
    returns (v': int, c: Cipher, ghost alpha: seq<nat>)
    requires ValidParams(pp) && pp.q > 0 && |pub.element| == pp.rows && |rowDraws| == pp.w
    ensures v' == v % pp.t && alpha == RowsOf(pp, selDraw, rowDraws) && (pp.wMin <= pp.w ==> EnoughRows(pp, |alpha|))
    ensures forall s :: 0 <= s < |alpha| ==> alpha[s] == rowDraws[s] % pp.rows
    ensures IsCipher(pp, table, pub, alpha, v', c)
  {
    v' := v % pp.t;
    var sel := Selection(pp, selDraw);
    var rows: seq<nat>, partialV := [], 0;
    for i := 0 to sel
      invariant |rows| == i && forall s :: 0 <= s < i ==> rows[s] == rowDraws[s] % pp.rows
      invariant partialV == PartialV(pub.element, rows)
    {
      var r: nat := rowDraws[i] % pp.rows;
      assert (rows + [r])[..i] == rows;
      rows := rows + [r];
      partialV := partialV + pub.element[r];
    }
    alpha := rows;
    var element: seq<int> := [];
    for j := 0 to pp.columns
      invariant |element| == j
      invariant forall i :: 0 <= i < j ==> element[i] == Column(table, pub.bias, rows, i)
    {
      var x := ColumnSum(table, pub.bias, rows, j);
      element := element + [x];
    }
    c := Cipher(element, (v' - partialV) % pp.q);
  }

  method ColumnSum(table: Table, bias: UInt32, rows: seq<nat>, j: nat) returns (x: int)
    ensures x == Column(table, bias, rows, j)
  {
    x := 0;
    for s := 0 to |rows|
      invariant x == Column(table, bias, rows[..s], j)
    {
      SameIndex(rows[s], j, bias);
      assert rows[..s + 1][..s] == rows[..s];
      x := x + table[CipherIndex(rows[s], j, bias)];
    }
    assert rows[..|rows|] == rows;
  }

  // ---- dtls_ma_dec ----

  function Dot(k: seq<int>, d: seq<int>, n: nat): int
    requires n <= |k| && n <= |d|
  {
    if n == 0 then 0 else Dot(k, d, n - 1) + k[n - 1] * d[n - 1]
  }

  function Plain(pp: Params, key: PrivateKey, c: Cipher): int
    requires pp.q > 0 && key.p > 0 && |key.k| == |c.element| == pp.columns
  {
    (((key.sk * (Dot(key.k, c.element, pp.columns) + c.tail)) % pp.q) * key.skInvP) % key.p
  }

  method Decrypt(pp: Params, key: PrivateKey, c: Cipher) returns (v: int)
    requires pp.q > 0 && key.p > 0 && |key.k| == |c.element| == pp.columns
    ensures v == Plain(pp, key, c)
  {
    var leftsum := 0;
    CongRefl(0, pp.q);
    for j := 0 to pp.columns
      invariant Cong(leftsum, Dot(key.k, c.element, j), pp.q)
    {
      var a := key.k[j] * c.element[j];
      CongRefl(a, pp.q);
      CongAdd(leftsum, Dot(key.k, c.element, j), a, a, pp.q);
      CongMod(leftsum + a, pp.q);
      CongTrans((leftsum + a) % pp.q, leftsum + a, Dot(key.k, c.element, j) + a, pp.q);
      leftsum := (leftsum + a) % pp.q;
    }
    var d := Dot(key.k, c.element, pp.columns);
    CongRefl(c.tail, pp.q);
    CongAdd(leftsum, d, c.tail, c.tail, pp.q);
    leftsum := leftsum + c.tail;
    CongScale(leftsum, d + c.tail, key.sk, pp.q);
    CongResidue(key.sk * leftsum, key.sk * (d + c.tail), pp.q);
    leftsum := (key.sk * leftsum) % pp.q;
    v := (leftsum * key.skInvP) % key.p;
  }

  // ---- decryption undoes encryption ----

  /** Adding a row to the selection adds its product with the secret. */
  lemma {:induction false} DotColumns(k: seq<int>, d: seq<int>, d': seq<int>, table: Table, bias: UInt32,
                                      alpha: seq<nat>, i: nat, n: nat)
    requires n <= |k| && n <= |d| && n <= |d'|
    requires forall j :: 0 <= j < n ==> d[j] == Column(table, bias, alpha, j)
    requires forall j :: 0 <= j < n ==> d'[j] == Column(table, bias, alpha + [i], j)
    ensures Dot(k, d', n) == Dot(k, d, n) + Row(k, table, bias, i, n)
  {
    if n > 0 {
      DotColumns(k, d, d', table, bias, alpha, i, n - 1);
      assert (alpha + [i])[..|alpha|] == alpha;
      assert d'[n - 1] == d[n - 1] + Entry(table, bias, i, n - 1);
      DistributeError(k[n - 1], d[n - 1], Entry(table, bias, i, n - 1));
    }
  }

  function ErrorSum(errors: seq<nat>, alpha: seq<nat>): nat
    requires forall s :: 0 <= s < |alpha| ==> alpha[s] < |errors|
  {
    if alpha == [] then 0 else ErrorSum(errors, alpha[..|alpha| - 1]) + errors[alpha[|alpha| - 1]]
  }

  lemma {:induction false} ErrorBound(errors: seq<nat>, alpha: seq<nat>, r: nat)
    requires r > 0 && forall i :: 0 <= i < |errors| ==> errors[i] < r
    requires forall s :: 0 <= s < |alpha| ==> alpha[s] < |errors|
    ensures ErrorSum(errors, alpha) <= |alpha| * (r - 1)
  {
    if alpha != [] {
      ErrorBound(errors, alpha[..|alpha| - 1], r);
      assert |alpha| * (r - 1) == (|alpha| - 1) * (r - 1) + (r - 1);
    }
  }

  ghost function Columns(table: Table, bias: UInt32, alpha: seq<nat>, n: nat): seq<int> {
    seq(n, j requires 0 <= j < n => Column(table, bias, alpha, j))
  }

  /** The secret sum of the columns less the public sum of the rows is the masked error. */
  lemma {:induction false} SecretLessPublic(pp: Params, key: PrivateKey, skInvQ: int, table: Table,
                                            errors: seq<nat>, pub: PublicKey, alpha: seq<nat>)
    requires pp.q > 0 && |key.k| == pp.columns && IsMaskedBy(pp, key, skInvQ, table, errors, pub)
    requires forall s :: 0 <= s < |alpha| ==> alpha[s] < |errors|
    ensures Cong(Dot(key.k, Columns(table, pub.bias, alpha, pp.columns), pp.columns) - PartialV(pub.element, alpha),
                 (skInvQ * key.p) * ErrorSum(errors, alpha), pp.q)
  {
    hide Cong;
    var n, bias, q := pp.columns, pub.bias, pp.q;
    if alpha == [] {
      DotZero(key.k, Columns(table, bias, alpha, n), n);
      CongRefl(0, q);
    } else {
      var rest, i := alpha[..|alpha| - 1], alpha[|alpha| - 1];
      assert alpha == rest + [i];
      SecretLessPublic(pp, key, skInvQ, table, errors, pub, rest);
      DotColumns(key.k, Columns(table, bias, rest, n), Columns(table, bias, alpha, n), table, bias, rest, i, n);
      RowLessElement(Row(key.k, table, bias, i, n), (skInvQ * key.p) * errors[i], q);
      OneMoreRow(Dot(key.k, Columns(table, bias, rest, n), n), PartialV(pub.element, rest), ErrorSum(errors, rest),
                 Row(key.k, table, bias, i, n), pub.element[i], errors[i], skInvQ * key.p, q);
    }
  }

  lemma OneMoreRow(x: int, y: int, e: int, row: int, element: int, error: int, c: int, q: nat)
    requires q > 0 && Cong(x - y, c * e, q) && Cong(row - element, c * error, q)
    ensures Cong((x + row) - (y + element), c * (e + error), q)
  {
    hide Cong;
    CongAdd(x - y, c * e, row - element, c * error, q);
    DistributeError(c, e, error);
  }

  lemma DistributeError(c: int, x: int, y: int)
    ensures c * x + c * y == c * (x + y)
  {
  }

  lemma {:induction false} DotZero(k: seq<int>, d: seq<int>, n: nat)
    requires n <= |k| && n <= |d| && forall j :: 0 <= j < n ==> d[j] == 0
    ensures Dot(k, d, n) == 0
  {
    if n > 0 {
      DotZero(k, d, n - 1);
    }
  }

  lemma RowLessElement(row: int, x: int, q: nat)
    requires q > 0
    ensures Cong(row - (row - x % q) % q, x, q)
  {
    CongMod(x, q);
    CongMod(row - x % q, q);
    CongRefl(row, q);
    CongAdd(row, row, (row - x % q) % q, row - x % q, q);
    CongTrans(row - (row - x % q) % q, x % q, x, q);
  }

  /** For every key the generator accepts, every bias, every error vector, every choice
      of at most w rows and every v, decryption gives v modulo t. */
  lemma DecryptUndoesEncrypt(pp: Params, key: PrivateKey, table: Table, errors: seq<nat>, pub: PublicKey,
                             alpha: seq<nat>, v: int, c: Cipher)
    requires ValidParams(pp) && ValidKey(pp, key) && pp.q > 0 && IsPublicKey(pp, key, table, errors, pub)
    requires |alpha| <= pp.w && forall s :: 0 <= s < |alpha| ==> alpha[s] < pp.rows
    requires IsCipher(pp, table, pub, alpha, v % pp.t, c)
    ensures Plain(pp, key, c) == v % pp.t
  {
    var skInvQ: int :| IsMaskedBy(pp, key, skInvQ, table, errors, pub);
    var m, q, e := v % pp.t, pp.q, ErrorSum(errors, alpha);
    var d := Dot(key.k, c.element, pp.columns);
    assert c.element == Columns(table, pub.bias, alpha, pp.columns);
    SecretLessPublic(pp, key, skInvQ, table, errors, pub, alpha);
    ErrorBound(errors, alpha, pp.r);
    assert Cong(d + c.tail, m + (skInvQ * key.p) * e, q) by {
      var x := d - PartialV(pub.element, alpha);
      CongMod(m - PartialV(pub.element, alpha), q);
      CongRefl(d, q);
      CongRefl(m, q);
      CongAdd(d, d, c.tail, m - PartialV(pub.element, alpha), q);
      CongAdd(x, (skInvQ * key.p) * e, m, m, q);
      CongTrans(d + c.tail, x + m, m + (skInvQ * key.p) * e, q);
    }
    Unmask(key.sk, skInvQ, key.p, m, e, d + c.tail, q);
    NoiseBound(pp, key, m, e, |alpha|);
    CongMod(key.sk * (d + c.tail), q);
    CongTrans((key.sk * (d + c.tail)) % q, key.sk * (d + c.tail), key.sk * m + key.p * e, q);
    CongSmall((key.sk * (d + c.tail)) % q, key.sk * m + key.p * e, q);
    Recover(key.sk, key.skInvP, key.p, m, e);
  }

  lemma Unmask(sk: int, inv: int, p: int, m: int, e: int, x: int, q: nat)
    requires q > 0 && Cong(inv * sk, 1, q) && Cong(x, m + (inv * p) * e, q)
    ensures Cong(sk * x, sk * m + p * e, q)
  {
    hide Cong;
    CongScale(x, m + (inv * p) * e, sk, q);
    CongScale(inv * sk, 1, p * e, q);
    assert sk * (m + (inv * p) * e) == sk * m + (inv * sk) * (p * e);
    CongRefl(sk * m, q);
    CongAdd(sk * m, sk * m, (inv * sk) * (p * e), p * e, q);
    CongTrans(sk * x, sk * m + (inv * sk) * (p * e), sk * m + p * e, q);
  }

  /** The masked plaintext and the noise never reach q together. */
  lemma NoiseBound(pp: Params, key: PrivateKey, m: nat, e: nat, n: nat)
    requires ValidKey(pp, key) && pp.r > 0 && m < pp.t && n <= pp.w && e <= n * (pp.r - 1)
    ensures 0 <= key.sk * m + key.p * e < pp.q
  {
    MulPos(key.sk, m);
    MulPos(key.p, e);
    MulLe(key.sk, m, pp.t - 1);
    MulLe(pp.r - 1, n, pp.w);
    MulLe(pp.w, pp.r - 1, pp.r);
    MulLe(key.p, e, pp.w * pp.r);
  }

  lemma Recover(sk: nat, inv: int, p: nat, m: nat, e: nat)
    requires p > 1 && (inv * sk) % p == 1 && m < p
    ensures ((sk * m + p * e) * inv) % p == m
  {
    DivModUnique(1, p, 0, 1);
    CongResidue(inv * sk, 1, p);
    CongScale(inv * sk, 1, m, p);
    assert (sk * m + p * e) * inv == (inv * sk) * m + (e * inv) * p;
    CongBy((sk * m + p * e) * inv, (inv * sk) * m, e * inv, p);
    CongTrans((sk * m + p * e) * inv, (inv * sk) * m, m, p);
    CongResidue((sk * m + p * e) * inv, m, p);
    DivModUnique(m, p, 0, m);
  }
}
