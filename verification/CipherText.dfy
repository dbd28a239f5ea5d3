/** Ciphers as text, and the string-level encryption and decryption of ma.c. */
module CipherText {
  import opened Numerals
  import opened Basics
  import opened Bytes
  import opened BaseText
  import opened BlockCode
  import opened Lattice

  // ---- dtls_ma_cipher_out_str ----

  /** Every number in hexadecimal, each followed by a comma. */
  function JoinHex(xs: seq<int>): string {
    if xs == [] then "" else JoinHex(xs[..|xs| - 1]) + Text(xs[|xs| - 1], 16) + ","
  }

  function Serialize(c: Cipher): string {
    JoinHex(c.element) + Text(c.tail, 16) + ","
  }

  /** The serialised cipher, or -1 when it is longer than the buffer. */
  method CipherOutStr(c: Cipher, bufLen: nat) returns (len: int, buf: string)
    ensures |Serialize(c)| <= bufLen ==> len == |Serialize(c)| && buf == Serialize(c)
    ensures |Serialize(c)| > bufLen ==> len == -1
  {
    hide Text;
    buf := "";
    for i := 0 to |c.element|
      invariant buf == JoinHex(c.element[..i])
    {
      if |buf| > bufLen {
        JoinHexPrefix(c.element, i);
        return -1, buf;
      }
      assert c.element[..i + 1][..i] == c.element[..i];
      buf := buf + Text(c.element[i], 16) + ",";
    }
    assert c.element[..|c.element|] == c.element;
    var temp := Text(c.tail, 16);
    if |buf| + |temp| + 1 > bufLen {
      return -1, buf;
    }
    buf := buf + temp + ",";
    len := |buf|;
  }

  lemma {:induction false} JoinHexPrefix(xs: seq<int>, i: nat)
    requires i <= |xs|
    ensures |JoinHex(xs[..i])| <= |JoinHex(xs)|
  {
    if i < |xs| {
      JoinHexPrefix(xs[..|xs| - 1], i);
      assert xs[..|xs| - 1][..i] == xs[..i];
    } else {
      assert xs[..i] == xs;
    }
  }

  // ---- dtls_ma_cipher_in_str ----

  /** The text up to the next comma or the end, as sscanf's "%[^,]," takes it. */
  function Field(s: string): (f: string)
    ensures |f| <= |s|
  {
    if s == [] || s[0] == ',' then "" else [s[0]] + Field(s[1..])
  }

  lemma {:induction false} FieldOfText(t: string, rest: string)
    requires forall i :: 0 <= i < |t| ==> t[i] != ','
    ensures Field(t + "," + rest) == t
  {
    if t == [] {
      assert (t + "," + rest)[0] == ',';
    } else {
      FieldOfText(t[1..], rest);
      assert (t + "," + rest)[1..] == t[1..] + "," + rest;
      assert [t[0]] + t[1..] == t;
    }
  }

  /** A field that is no number counts as 0, since the result of mpz_set_str is not looked at. */
  function FieldValue(f: string): int {
    var n := Parse(f, 16);
    if n.Some? then n.value else 0
  }

  /** The numbers read, how far they reach, and what the scan buffer holds. */
  datatype Numbers = Numbers(values: seq<int>, at: nat, kept: string)

  /** The first n numbers of the text. For an empty field the scan buffer keeps the field before
      it, which is read once more. Nothing where the code has no defined meaning: an empty field
      without one before it, and a field that starts beyond the end of the text. */
  function ReadNumbers(s: string, n: nat): (r: Option<Numbers>)
    ensures r.Some? ==> |r.value.values| == n && r.value.at >= n
  {
    if n == 0 then Some(Numbers([], 0, ""))
    else
      var head := ReadNumbers(s, n - 1);
      if head.None? || head.value.at > |s| then None
      else
        var f := Field(s[head.value.at..]);
        var kept := if f == "" then head.value.kept else f;
        if kept == "" then None
        else Some(Numbers(head.value.values + [FieldValue(kept)], head.value.at + |kept| + 1, kept))
  }

  ghost predicate Reads(s: string, xs: seq<int>, at: nat) {
    var r := ReadNumbers(s, |xs|);
    r.Some? && r.value.values == xs && r.value.at == at
  }

  lemma ReadText(x: int, rest: string)
    ensures Field(Text(x, 16) + "," + rest) == Text(x, 16) && FieldValue(Text(x, 16)) == x
  {
    FieldOfText(Text(x, 16), rest);
    ParseText(x, 16);
  }

  /** A text already read up to some point, read one number further. */
  lemma ReadFurther(s: string, done: seq<int>, front: string, x: int, rest: string)
    requires s == front + (Text(x, 16) + "," + rest) && Reads(s, done, |front|)
    ensures Reads(s, done + [x], |front| + |Text(x, 16)| + 1)
  {
    hide Text, FieldValue, Field;
    ReadText(x, rest);
    assert s[|front|..] == Text(x, 16) + "," + rest;
    assert |done + [x]| - 1 == |done|;
  }

  lemma {:induction false} ReadJoined(xs: seq<int>, rest: string)
    ensures Reads(JoinHex(xs) + rest, xs, |JoinHex(xs)|)
  {
    hide Text, Reads;
    if xs == [] {
      ReadNone(JoinHex(xs) + rest);
    } else {
      var n := |xs| - 1;
      var t := Text(xs[n], 16);
      ReadJoined(xs[..n], t + "," + rest);
      assert JoinHex(xs) + rest == JoinHex(xs[..n]) + (t + "," + rest);
      ReadFurther(JoinHex(xs) + rest, xs[..n], JoinHex(xs[..n]), xs[n], rest);
      assert xs == xs[..n] + [xs[n]];
    }
  }

  lemma ReadNone(s: string)
    ensures Reads(s, [], 0)
  {
  }

  /** The cipher at the front of the text and the number of characters it takes; nothing where
      reading it has no defined meaning or reaches the end of the scan buffer. The code checks
      that for the elements only, and then gives a null pointer that its caller follows. */
  function CipherAt(s: string, columns: nat, limit: nat): (r: Option<(Cipher, nat)>)
    ensures r.Some? ==> |r.value.0.element| == columns && 0 < r.value.1 < limit
  {
    var xs := ReadNumbers(s, columns + 1);
    if xs.None? || xs.value.at >= limit then None
    else Some((Cipher(xs.value.values[..columns], xs.value.values[columns]), xs.value.at))
  }

  lemma CipherAtSerialized(c: Cipher, rest: string, limit: nat)
    requires |Serialize(c)| < limit
    ensures CipherAt(Serialize(c) + rest, |c.element|, limit) == Some((c, |Serialize(c)|))
  {
    hide Text, Field, ReadNumbers;
    var all := c.element + [c.tail];
    assert all[..|c.element|] == c.element;
    assert JoinHex(all) == Serialize(c);
    ReadJoined(all, rest);
  }

  // ---- how long a serialised cipher gets ----

  lemma HexLength(x: nat, k: nat)
    requires k > 0 && x < Pow(16, k)
    ensures |Text(x, 16)| <= k
  {
    DigitCount(x, 16, k);
  }

  lemma {:induction false} JoinLength(xs: seq<int>, k: nat)
    requires k > 0 && forall i :: 0 <= i < |xs| ==> 0 <= xs[i] < Pow(16, k)
    ensures |JoinHex(xs)| <= |xs| * (k + 1)
  {
    hide Text, Pow;
    if xs != [] {
      JoinLength(xs[..|xs| - 1], k);
      HexLength(xs[|xs| - 1], k);
      assert |xs| * (k + 1) == (|xs| - 1) * (k + 1) + (k + 1);
    }
  }

  const MAX_ENTRY: nat := 16   // DTLS_MA_B: every table entry is below it
  const OUT_LIMIT: nat := 68   // 13 * 32 / 8 + 16
  const IN_LIMIT: nat := 116   // 13 * 32 / 8 + 64

  ghost predicate SmallTable(table: Table) {
    forall i :: 0 <= i < TABLE_LEN ==> 0 <= table[i] < MAX_ENTRY
  }

  lemma {:induction false} ColumnBound(table: Table, bias: UInt32, alpha: seq<nat>, j: nat)
    requires SmallTable(table)
    ensures 0 <= Column(table, bias, alpha, j) <= |alpha| * 15
  {
    if alpha != [] {
      ColumnBound(table, bias, alpha[..|alpha| - 1], j);
    }
  }

  /** A cipher under the configured parameters always fits both buffers. */
  lemma CipherFits(table: Table, pub: PublicKey, alpha: seq<nat>, v: int, c: Cipher)
    requires SmallTable(table) && |alpha| <= CONFIGURED.w
    requires forall s :: 0 <= s < |alpha| ==> alpha[s] < |pub.element|
    requires IsCipher(CONFIGURED, table, pub, alpha, v, c)
    ensures |Serialize(c)| <= OUT_LIMIT < IN_LIMIT
  {
    hide Text;
    assert Pow(16, 3) == 4096;
    assert Pow(16, 8) == 0x1_0000_0000 by { PowAdd(16, 3, 3); PowAdd(16, 6, 2); assert Pow(16, 2) == 256; }
    forall j | 0 <= j < |c.element|
      ensures 0 <= c.element[j] < Pow(16, 3)
    {
      ColumnBound(table, pub.bias, alpha, j);
    }
    JoinLength(c.element, 3);
    HexLength(c.tail, 8);
  }

  // ---- dtls_ma_enc_str_G and dtls_ma_dec_str_G, with DTLS_MA_G = 0 ----

  const BLOCK_LEN: nat := 2    // DTLS_MA_T_BITS / 8

  /** The random draws of one block. */
  datatype Draws = Draws(sel: nat, rows: seq<Byte>)

  function SerializeAll(cs: seq<Cipher>): string {
    if cs == [] then "" else Serialize(cs[0]) + SerializeAll(cs[1..])
  }

  lemma {:induction false} SerializeSnoc(cs: seq<Cipher>, c: Cipher)
    ensures SerializeAll(cs + [c]) == SerializeAll(cs) + Serialize(c)
  {
    hide Serialize;
    if cs == [] {
      assert SerializeAll([c]) == Serialize(c) + SerializeAll([c][1..]);
    } else {
      assert (cs + [c])[1..] == cs[1..] + [c];
      SerializeSnoc(cs[1..], c);
    }
  }

  function BlockValue(sign: SignTable, x: Byte): nat {
    BeVal(256, Tagged(sign, [x]))
  }

  /** c is an encryption of the block of byte x, for the rows alpha. */
  ghost predicate EncryptsWith(table: Table, pub: PublicKey, sign: SignTable, x: Byte, alpha: seq<nat>, c: Cipher) {
    && 27 <= |alpha| <= CONFIGURED.w
    && (forall s :: 0 <= s < |alpha| ==> alpha[s] < CONFIGURED.rows)
    && |pub.element| == CONFIGURED.rows
    && IsCipher(CONFIGURED, table, pub, alpha, BlockValue(sign, x) % CONFIGURED.t, c)
  }

  /** c is an encryption of the block of byte x, for some choice of rows. */
  ghost predicate Encrypted(table: Table, pub: PublicKey, sign: SignTable, x: Byte, c: Cipher) {
    exists alpha: seq<nat> :: EncryptsWith(table, pub, sign, x, alpha, c)
  }

  /** Every byte under the rows that its own draws select. */
  ghost predicate EncryptsFrom(table: Table, pub: PublicKey, sign: SignTable, buf: seq<Byte>, draws: seq<Draws>, cs: seq<Cipher>)
    requires forall i :: 0 <= i < |draws| ==> |draws[i].rows| == CONFIGURED.w
  {
    && |cs| == |buf| <= |draws|
    && forall i :: 0 <= i < |cs| ==>
         EncryptsWith(table, pub, sign, buf[i], RowsOf(CONFIGURED, draws[i].sel, draws[i].rows), cs[i])
  }

  ghost predicate EncryptsAll(table: Table, pub: PublicKey, sign: SignTable, buf: seq<Byte>, cs: seq<Cipher>) {
    && |cs| == |buf|
    && forall i :: 0 <= i < |cs| ==> Encrypted(table, pub, sign, buf[i], cs[i])
  }

  method EncStr(table: Table, pub: PublicKey, sign: SignTable, buf: seq<Byte>, draws: seq<Draws>)
    returns (ok: bool, text: string, ghost cs: seq<Cipher>)
    requires SmallTable(table) && |pub.element| == CONFIGURED.rows
    requires |draws| >= |buf| && forall i :: 0 <= i < |draws| ==> |draws[i].rows| == CONFIGURED.w
    ensures ok && text == SerializeAll(cs)
    ensures EncryptsFrom(table, pub, sign, buf, draws, cs) && EncryptsAll(table, pub, sign, buf, cs)
  {
    hide Serialize, SmallTable, EncryptsWith, RowsOf;
    ok, text, cs := true, "", [];
    var pos := 0;
    while pos < |buf|
      invariant 0 <= pos <= |buf| && |cs| == pos
      invariant text == SerializeAll(cs)
      invariant forall i :: 0 <= i < pos ==>
        EncryptsWith(table, pub, sign, buf[i], RowsOf(CONFIGURED, draws[i].sel, draws[i].rows), cs[i])
    {
      var s, c := EncBlock(table, pub, sign, buf[pos..], draws[pos]);
      SerializeSnoc(cs, c);
      text, cs, pos := text + s, cs + [c], pos + 1;
    }
  }

  /** One round: encode a block, encrypt it, serialise it. */
  method EncBlock(table: Table, pub: PublicKey, sign: SignTable, buf: seq<Byte>, draw: Draws)
    returns (s: string, ghost c: Cipher)
    requires SmallTable(table) && |pub.element| == CONFIGURED.rows && |draw.rows| == CONFIGURED.w && buf != []
    ensures s == Serialize(c)
    ensures EncryptsWith(table, pub, sign, buf[0], RowsOf(CONFIGURED, draw.sel, draw.rows), c)
  {
    Configured();
    var l, v := Encode(sign, BLOCK_LEN, buf);
    assert buf[..l] == [buf[0]];
    var v', c', alpha := Encrypt(CONFIGURED, table, pub, v, draw.sel, draw.rows);
    CipherFits(table, pub, alpha, v', c');
    c := c';
    assert EncryptsWith(table, pub, sign, buf[0], alpha, c);
    var len;
    len, s := CipherOutStr(c', OUT_LIMIT);
  }

  lemma Configured()
    ensures ValidParams(CONFIGURED)
  {
    assert Pow(2, 8) == 256;
    PowAdd(2, 8, 8);
    PowAdd(2, 16, 16);
    assert CONFIGURED.q == Pow(2, 32);
  }

  function From(text: string, pos: nat): (s: string)
    ensures pos > 0 && text != "" ==> |s| < |text|
  {
    if pos < |text| then text[pos..] else ""
  }

  /** What decryption comes to: bytes, -1 for a malformed block, or no defined meaning. */
  datatype Decoded = Plaintext(data: seq<Byte>) | Malformed | Undefined

  /** What the decryption of a whole text comes to. */
  function DecodeText(key: PrivateKey, sign: SignTable, text: string): Decoded
    requires |key.k| == CONFIGURED.columns && key.p > 0
    decreases |text|
  {
    if text == "" then Plaintext([])
    else
      var c := CipherAt(text, CONFIGURED.columns, IN_LIMIT);
      if c.None? then Undefined
      else
        var block := DecodeBytes(sign, LowBytes(Plain(CONFIGURED, key, c.value.0), BLOCK_LEN));
        var rest := DecodeText(key, sign, From(text, c.value.1));
        if block.None? then Malformed else Append(block.value, rest)
  }

  function Append(front: seq<Byte>, rest: Decoded): Decoded {
    if rest.Plaintext? then Plaintext(front + rest.data) else rest
  }

  lemma AppendTwice(a: seq<Byte>, b: seq<Byte>, rest: Decoded)
    ensures Append(a, Append(b, rest)) == Append(a + b, rest)
    ensures Append([], rest) == rest
  {
    if rest.Plaintext? {
      assert a + (b + rest.data) == a + b + rest.data;
      assert [] + rest.data == rest.data;
    }
  }

  /** Reads one cipher, decrypts it and decodes its block. */
  method DecBlock(key: PrivateKey, sign: SignTable, text: string) returns (last: nat, block: Decoded)
    requires |key.k| == CONFIGURED.columns && key.p > 0 && text != ""
    ensures var c := CipherAt(text, CONFIGURED.columns, IN_LIMIT);
      if c.None? then block == Undefined
      else
        var d := DecodeBytes(sign, LowBytes(Plain(CONFIGURED, key, c.value.0), BLOCK_LEN));
        last == c.value.1 && block == if d.Some? then Plaintext(d.value) else Malformed
  {
    hide CipherAt, DecodeBytes, LowBytes;
    last, block := 0, Undefined;
    var c := CipherAt(text, CONFIGURED.columns, IN_LIMIT);
    if c.Some? {
      var v := Decrypt(CONFIGURED, key, c.value.0);
      var count, data := Decode(sign, BLOCK_LEN, v);
      last, block := c.value.1, if count < 0 then Malformed else Plaintext(data);
    }
  }

  /** dtls_ma_dec_str_G: the whole text, block after block. */
  method DecStr(key: PrivateKey, sign: SignTable, text: string) returns (res: Decoded)
    requires |key.k| == CONFIGURED.columns && key.p > 0
    ensures res == DecodeText(key, sign, text)
  {
    hide CipherAt, DecodeBytes, LowBytes, Plain;
    var data := [];
    AppendTwice([], [], DecodeText(key, sign, text));
    var pos := 0;
    while pos < |text|
      invariant DecodeText(key, sign, text) == Append(data, DecodeText(key, sign, From(text, pos)))
    {
      var last, block := DecBlock(key, sign, text[pos..]);
      if !block.Plaintext? {
        return block;
      }
      assert From(text[pos..], last) == From(text, pos + last);
      AppendTwice(data, block.data, DecodeText(key, sign, From(text, pos + last)));
      data, pos := data + block.data, pos + last;
    }
    res := Plaintext(data);
  }

  lemma DecryptsBlock(key: PrivateKey, table: Table, errors: seq<nat>, pub: PublicKey, sign: SignTable,
                      x: Byte, c: Cipher)
    requires SmallTable(table) && ValidKey(CONFIGURED, key) && IsPublicKey(CONFIGURED, key, table, errors, pub)
    requires Encrypted(table, pub, sign, x, c)
    ensures |c.element| == CONFIGURED.columns && |Serialize(c)| < IN_LIMIT
    ensures Plain(CONFIGURED, key, c) == BlockValue(sign, x)
    ensures DecodeBytes(sign, LowBytes(BlockValue(sign, x), BLOCK_LEN)) == Some([x])
  {
    hide JoinHex, Serialize, Plain, DecodeBytes, LowBytes, Tagged, BeVal, ValidKey, IsPublicKey, ValidParams, Pow;
    var alpha: seq<nat> :| EncryptsWith(table, pub, sign, x, alpha, c);
    Configured();
    BlockFits(sign, x);
    var v := BlockValue(sign, x);
    assert v % CONFIGURED.t == v;
    CipherFits(table, pub, alpha, v, c);
    DecryptUndoesEncrypt(CONFIGURED, key, table, errors, pub, alpha, v, c);
    DecodeEncode(sign, [x], BLOCK_LEN);
  }

  lemma BlockFits(sign: SignTable, x: Byte)
    ensures BlockValue(sign, x) < CONFIGURED.t
  {
    hide Tagged, BeVal;
    ValueBound(Tagged(sign, [x]));
    assert Pow(256, 1) == 256;
  }

  /** For every valid key, every byte string and every random choice, decrypting the text
      of an encryption gives the byte string. */
  lemma {:induction false} DecodeUndoesEncode(key: PrivateKey, table: Table, errors: seq<nat>, pub: PublicKey,
                                              sign: SignTable, buf: seq<Byte>, cs: seq<Cipher>)
    requires SmallTable(table) && ValidKey(CONFIGURED, key) && IsPublicKey(CONFIGURED, key, table, errors, pub)
    requires EncryptsAll(table, pub, sign, buf, cs)
    ensures DecodeText(key, sign, SerializeAll(cs)) == Plaintext(buf)
  {
    hide SmallTable, ValidKey, IsPublicKey, Plain, DecodeBytes, LowBytes, Serialize, CipherAt, JoinHex, BlockValue, Encrypted;
    if cs != [] {
      assert Encrypted(table, pub, sign, buf[0], cs[0]);
      DecryptsBlock(key, table, errors, pub, sign, buf[0], cs[0]);
      FirstCipher(cs);
      EncryptsRest(table, pub, sign, buf, cs);
      DecodeUndoesEncode(key, table, errors, pub, sign, buf[1..], cs[1..]);
      assert buf == [buf[0]] + buf[1..];
    }
  }

  lemma EncryptsRest(table: Table, pub: PublicKey, sign: SignTable, buf: seq<Byte>, cs: seq<Cipher>)
    requires cs != [] && EncryptsAll(table, pub, sign, buf, cs)
    ensures EncryptsAll(table, pub, sign, buf[1..], cs[1..])
  {
    hide Encrypted;
    forall i | 0 <= i < |cs| - 1
      ensures Encrypted(table, pub, sign, buf[1..][i], cs[1..][i])
    {
      assert Encrypted(table, pub, sign, buf[i + 1], cs[i + 1]);
    }
  }

  lemma FirstCipher(cs: seq<Cipher>)
    requires cs != [] && |cs[0].element| == CONFIGURED.columns && |Serialize(cs[0])| < IN_LIMIT
    ensures var text := SerializeAll(cs);
      && text != ""
      && CipherAt(text, CONFIGURED.columns, IN_LIMIT) == Some((cs[0], |Serialize(cs[0])|))
      && From(text, |Serialize(cs[0])|) == SerializeAll(cs[1..])
  {
    hide CipherAt, JoinHex, Text;
    CipherAtSerialized(cs[0], SerializeAll(cs[1..]), IN_LIMIT);
  }
}
