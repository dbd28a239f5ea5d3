/** dtls_ma_encode and dtls_ma_decode: a block of bytes under a masked tag byte. */
module BlockCode {
  import opened Numerals
  import opened Basics
  import opened Bytes
  import opened BaseText

  type SignTable = s: seq<Byte> | |s| == 256 witness seq(256, _ => 0)

  /** The running signature of the data bytes, over table entries `shift` further on. */
  function Fold(sign: SignTable, data: seq<Byte>, shift: nat): Byte {
    if data == [] then 0
    else
      var c := data[|data| - 1];
      Xor(Xor(Fold(sign, data[..|data| - 1], shift), sign[(c + shift) % 256]), c)
  }

  /** The mask, kept away from the tag 0xAA. */
  function Settle(main: Byte, backup: Byte): (s: Byte)
    ensures s != 0xAA
  {
    if main == 0xAA then (if backup != 0xAA then backup else 0xCC) else main
  }

  function BlockSign(sign: SignTable, data: seq<Byte>): (s: Byte)
    ensures s != 0xAA
  {
    Settle(Fold(sign, data, 0), Fold(sign, data, 1))
  }

  function Mask(data: seq<Byte>, s: Byte): (r: seq<Byte>)
    ensures |r| == |data| && forall i :: 0 <= i < |r| ==> r[i] == Xor(data[i], s)
  {
    seq(|data|, i requires 0 <= i < |data| => Xor(data[i], s))
  }

  lemma MaskTwice(data: seq<Byte>, s: Byte)
    ensures Mask(Mask(data, s), s) == data
  {
    forall i | 0 <= i < |data|
      ensures Mask(Mask(data, s), s)[i] == data[i]
    {
      XorTwice(data[i], s);
    }
  }

  /** The tagged and masked block: its first byte is never zero. */
  function Tagged(sign: SignTable, data: seq<Byte>): (r: seq<Byte>)
    ensures |r| == |data| + 1 && r[0] != 0
  {
    var s := BlockSign(sign, data);
    XorZero(0xAA, s);
    Mask([0xAA] + data, s)
  }

  // ---- dtls_ma_encode ----

  /** How many bytes one block takes. */
  function ChunkLength(len: nat, blockLen: nat): nat
    requires blockLen >= 2
  {
    if len >= blockLen then blockLen - 1 else len
  }

  /** One round of the signature loop. */
  lemma FoldRound(sign: SignTable, data: seq<Byte>, c: Byte, shift: nat)
    ensures Fold(sign, data + [c], shift) == Xor(Xor(Fold(sign, data, shift), sign[(c + shift) % 256]), c)
  {
    assert (data + [c])[..|data|] == data;
  }

  method Encode(sign: SignTable, blockLen: nat, buf: seq<Byte>) returns (count: int, res: nat)
    requires blockLen >= 2
    ensures buf == [] ==> count == -1
    ensures buf != [] ==>
      count == ChunkLength(|buf|, blockLen) && res == BeVal(256, Tagged(sign, buf[..count]))
  {
    if |buf| <= 0 {
      return -1, 0;
    }
    var len := if |buf| >= blockLen then blockLen else |buf| + 1;
    var tagged := new Byte[len];
    var blockSign := FillTagged(sign, tagged, buf);
    MaskInPlace(tagged, blockSign);
    assert tagged[..] == Tagged(sign, buf[..len - 1]);
    res := Number(tagged);
    count := len - 1;
  }

  /** Copies the bytes behind the tag and computes their signature. */
  method FillTagged(sign: SignTable, tagged: array<Byte>, buf: seq<Byte>) returns (blockSign: Byte)
    requires 1 <= tagged.Length <= |buf| + 1
    modifies tagged
    ensures tagged[..] == [0xAA] + buf[..tagged.Length - 1]
    ensures blockSign == BlockSign(sign, buf[..tagged.Length - 1])
  {
    hide Xor;
    tagged[0] := 0xAA;
    blockSign := 0;
    var backup: Byte := 0;
    for i := 1 to tagged.Length
      invariant tagged[..i] == [0xAA] + buf[..i - 1]
      invariant blockSign == Fold(sign, buf[..i - 1], 0) && backup == Fold(sign, buf[..i - 1], 1)
    {
      var c: Byte := buf[i - 1];
      FoldRound(sign, buf[..i - 1], c, 0);
      FoldRound(sign, buf[..i - 1], c, 1);
      assert buf[..i] == buf[..i - 1] + [c];
      blockSign := Xor(Xor(blockSign, sign[c]), c);
      backup := Xor(Xor(backup, sign[(c + 1) % 256]), c);
      tagged[i] := c;
    }
    assert tagged[..tagged.Length] == tagged[..];
    if blockSign == 0xAA {
      if backup != 0xAA {
        blockSign := backup;
      } else {
        blockSign := 0xCC;
      }
    }
  }

  method MaskInPlace(a: array<Byte>, s: Byte)
    modifies a
    ensures a[..] == Mask(old(a[..]), s)
  {
    for i := 0 to a.Length
      invariant forall k :: 0 <= k < i ==> a[k] == Xor(old(a[k]), s)
      invariant forall k :: i <= k < a.Length ==> a[k] == old(a[k])
    {
      a[i] := Xor(a[i], s);
    }
  }

  method Number(a: array<Byte>) returns (res: nat)
    requires a.Length > 0
    ensures res == BeVal(256, a[..])
  {
    res := a[0];
    assert a[..1] == [] + [a[0]];
    BeValSnoc(256, [], a[0]);
    for i := 1 to a.Length
      invariant res == BeVal(256, a[..i])
    {
      assert a[..i + 1] == a[..i] + [a[i]];
      BeValSnoc(256, a[..i], a[i]);
      res := res * 256 + a[i];
    }
    assert a[..a.Length] == a[..];
  }

  // ---- dtls_ma_decode ----

  /** The k low bytes of n, least significant first. */
  function LowBytes(n: nat, k: nat): (s: seq<Byte>)
    ensures |s| == k
  {
    if k == 0 then [] else [n % 256] + LowBytes(n / 256, k - 1)
  }

  /** The index of the highest non-zero byte, or -1. */
  function HighByte(s: seq<Byte>): (i: int)
    ensures -1 <= i < |s| && (i >= 0 ==> s[i] != 0) && forall k :: i < k < |s| ==> s[k] == 0
  {
    if s == [] then -1 else if s[|s| - 1] != 0 then |s| - 1 else HighByte(s[..|s| - 1])
  }

  /** What decoding yields: the data when the block carries its own signature. */
  function DecodeBytes(sign: SignTable, bytes: seq<Byte>): Option<seq<Byte>> {
    var top := HighByte(bytes);
    if top < 0 then None
    else
      var s := Xor(bytes[top], 0xAA);
      var data := Mask(Reversed(bytes[..top]), s);
      if BlockSign(sign, data) == s then Some(data) else None
  }

  method Decode(sign: SignTable, blockLen: nat, res: nat) returns (count: int, buf: seq<Byte>)
    ensures var d := DecodeBytes(sign, LowBytes(res, blockLen));
      if d.None? then count == -1 else count == |d.value| && buf == d.value
  {
    var temp := Split(res, blockLen);
    var i := FindHigh(temp);
    if i < 0 {
      return -1, [];
    }
    var blockSign: Byte := Xor(temp[i], 0xAA);
    var checked;
    buf, checked := Unmask(sign, temp, i, blockSign);
    count := if checked == blockSign then i else -1;
  }

  method FindHigh(temp: seq<Byte>) returns (i: int)
    ensures i == HighByte(temp)
  {
    i := |temp| - 1;
    assert temp[..i + 1] == temp;
    while i >= 0 && temp[i] == 0
      invariant -1 <= i < |temp| && HighByte(temp) == HighByte(temp[..i + 1])
    {
      assert temp[..i + 1][..i] == temp[..i];
      i := i - 1;
    }
  }

  /** The data below the tag, and the signature it has. */
  method Unmask(sign: SignTable, temp: seq<Byte>, count: nat, blockSign: Byte)
    returns (buf: seq<Byte>, checked: Byte)
    requires count <= |temp|
    ensures buf == Mask(Reversed(temp[..count]), blockSign) && checked == BlockSign(sign, buf)
  {
    hide Xor;
    var backup: Byte := 0;
    buf, checked := [], 0;
    for j := 0 to count
      invariant |buf| == j && forall m :: 0 <= m < j ==> buf[m] == Xor(temp[count - 1 - m], blockSign)
      invariant checked == Fold(sign, buf, 0) && backup == Fold(sign, buf, 1)
    {
      var c: Byte := Xor(temp[count - 1 - j], blockSign);
      FoldRound(sign, buf, c, 0);
      FoldRound(sign, buf, c, 1);
      buf := buf + [c];
      checked := Xor(Xor(checked, sign[c]), c);
      backup := Xor(Xor(backup, sign[(c + 1) % 256]), c);
    }
    assert buf == Mask(Reversed(temp[..count]), blockSign);
    if checked == 0xAA {
      if backup != 0xAA {
        checked := backup;
      } else {
        checked := 0xCC;
      }
    }
  }

  method Split(n: nat, k: nat) returns (temp: seq<Byte>)
    ensures temp == LowBytes(n, k)
  {
    temp := [];
    var res := n;
    for i := 0 to k
      invariant |temp| == i && temp + LowBytes(res, k - i) == LowBytes(n, k)
    {
      ghost var rest := LowBytes(res / 256, k - i - 1);
      assert LowBytes(res, k - i) == [res % 256] + rest;
      assert temp + ([res % 256] + rest) == (temp + [res % 256]) + rest;
      temp := temp + [res % 256];
      res := res / 256;
    }
  }

  // ---- decoding undoes encoding ----

  /** The low bytes of a number are its bytes, reversed, then zeros. */
  lemma {:induction false} LowBytesOfValue(s: seq<Byte>, k: nat)
    requires |s| <= k
    ensures LowBytes(BeVal(256, s), k)[..|s|] == Reversed(s)
    ensures forall i :: |s| <= i < k ==> LowBytes(BeVal(256, s), k)[i] == 0
  {
    var n := |s|;
    if s == [] {
      LowBytesZero(k);
    } else {
      LowBytesOfValue(s[..n - 1], k - 1);
      var v := BeVal(256, s[..n - 1]);
      assert BeVal(256, s) / 256 == v && BeVal(256, s) % 256 == s[n - 1];
      var low := LowBytes(BeVal(256, s), k);
      assert low == [s[n - 1]] + LowBytes(v, k - 1);
      forall i | 0 <= i < n
        ensures low[i] == Reversed(s)[i]
      {
        if i > 0 {
          assert low[i] == LowBytes(v, k - 1)[..n - 1][i - 1];
        }
      }
    }
  }

  lemma {:induction false} LowBytesZero(k: nat)
    ensures forall i :: 0 <= i < k ==> LowBytes(0, k)[i] == 0
  {
    if k > 0 {
      LowBytesZero(k - 1);
    }
  }

  /** An encoded block is below t = 256^blockLen, so reducing modulo t keeps it. */
  lemma {:induction false} ValueBound(s: seq<Byte>)
    ensures BeVal(256, s) < Pow(256, |s|)
  {
    if s != [] {
      ValueBound(s[..|s| - 1]);
    }
  }

  /** The bytes are the reversed block of the data, and zeros above it. */
  predicate Carries(sign: SignTable, bytes: seq<Byte>, data: seq<Byte>) {
    && |data| < |bytes| && bytes[..|data| + 1] == Reversed(Tagged(sign, data))
    && forall i :: |data| < i < |bytes| ==> bytes[i] == 0
  }

  lemma TopOfBlock(sign: SignTable, bytes: seq<Byte>, data: seq<Byte>)
    requires Carries(sign, bytes, data)
    ensures HighByte(bytes) == |data| && bytes[|data|] == Xor(0xAA, BlockSign(sign, data))
    ensures Reversed(bytes[..|data|]) == Mask(data, BlockSign(sign, data))
  {
    hide BlockSign;
    var n, s, t := |data|, BlockSign(sign, data), Tagged(sign, data);
    assert bytes[n] == bytes[..n + 1][n] == t[0];
    forall i | 0 <= i < n
      ensures Reversed(bytes[..n])[i] == Mask(data, s)[i]
    {
      assert bytes[n - 1 - i] == bytes[..n + 1][n - 1 - i] == t[i + 1];
    }
  }

  /** Decoding yields data exactly when the bytes carry the block of that data, with its signature. */
  lemma DecodeIffCarries(sign: SignTable, bytes: seq<Byte>, data: seq<Byte>)
    ensures DecodeBytes(sign, bytes) == Some(data) <==> Carries(sign, bytes, data)
  {
    hide BlockSign, Carries, HighByte;
    var s := BlockSign(sign, data);
    if Carries(sign, bytes, data) {
      TopOfBlock(sign, bytes, data);
      XorCommutes(0xAA, s);
      XorTwice(s, 0xAA);
      MaskTwice(data, s);
    }
    if DecodeBytes(sign, bytes) == Some(data) {
      DecodedCarries(sign, bytes, data);
    }
  }

  lemma DecodedCarries(sign: SignTable, bytes: seq<Byte>, data: seq<Byte>)
    requires DecodeBytes(sign, bytes) == Some(data)
    ensures Carries(sign, bytes, data)
  {
    hide BlockSign;
    var n, s, t := HighByte(bytes), BlockSign(sign, data), Tagged(sign, data);
    MaskTwice(Reversed(bytes[..n]), s);
    XorTwice(bytes[n], 0xAA);
    XorCommutes(0xAA, s);
    forall i | 0 <= i <= n
      ensures bytes[..n + 1][i] == Reversed(t)[i]
    {
      if i < n {
        assert Mask(data, s)[n - 1 - i] == Reversed(bytes[..n])[n - 1 - i] == bytes[i];
        assert t[n - i] == Mask(data, s)[n - 1 - i];
      }
    }
  }

  /** The block that was encoded is the block that is decoded. */
  lemma DecodeEncode(sign: SignTable, data: seq<Byte>, blockLen: nat)
    requires |data| < blockLen
    ensures DecodeBytes(sign, LowBytes(BeVal(256, Tagged(sign, data)), blockLen)) == Some(data)
  {
    hide BeVal, LowBytes, DecodeBytes;
    LowBytesOfValue(Tagged(sign, data), blockLen);
    DecodeIffCarries(sign, LowBytes(BeVal(256, Tagged(sign, data)), blockLen), data);
  }

  /** What one byte contributes to the signature. */
  function Share(sign: SignTable, c: Byte, shift: nat): Byte {
    Xor(sign[(c + shift) % 256], c)
  }

  /** Changing one byte changes the signature by the difference of the two shares. */
  lemma {:induction false} FoldChange(sign: SignTable, data: seq<Byte>, i: nat, c: Byte, shift: nat)
    requires i < |data|
    ensures Xor(Fold(sign, data[i := c], shift), Share(sign, data[i], shift))
         == Xor(Fold(sign, data, shift), Share(sign, c, shift))
  {
    hide Xor;
    var n := |data| - 1;
    var other := data[i := c];
    var x, y := Fold(sign, data[..n], shift), Fold(sign, other[..n], shift);
    XorAssoc(x, sign[(data[n] + shift) % 256], data[n]);
    XorAssoc(y, sign[(other[n] + shift) % 256], other[n]);
    var a, b := Share(sign, data[i], shift), Share(sign, c, shift);
    if i == n {
      assert other[..n] == data[..n];
      SwapShares(x, a, b);
    } else {
      assert other[..n] == data[..n][i := c];
      FoldChange(sign, data[..n], i, c, shift);
      var d := Share(sign, data[n], shift);
      SwapShares(x, d, b);
      SwapShares(y, d, a);
    }
  }

  lemma SwapShares(x: Byte, a: Byte, b: Byte)
    ensures Xor(Xor(x, a), b) == Xor(Xor(x, b), a)
  {
    hide Xor;
    XorAssoc(x, a, b);
    XorAssoc(x, b, a);
    XorCommutes(a, b);
  }

  /** A block with one byte changed has another signature, when the shares of the two bytes differ
      and neither running signature is the tag. */
  lemma SignatureDetects(sign: SignTable, data: seq<Byte>, i: nat, c: Byte)
    requires i < |data| && Share(sign, c, 0) != Share(sign, data[i], 0)
    requires Fold(sign, data, 0) != 0xAA && Fold(sign, data[i := c], 0) != 0xAA
    ensures BlockSign(sign, data[i := c]) != BlockSign(sign, data)
  {
    hide Xor, Fold, Share;
    FoldChange(sign, data, i, c, 0);
    var x, a, b := Fold(sign, data, 0), Share(sign, data[i], 0), Share(sign, c, 0);
    if Fold(sign, data[i := c], 0) == x {
      CancelFront(x, a, b);
    }
  }

  lemma CancelFront(x: Byte, a: Byte, b: Byte)
    requires Xor(x, a) == Xor(x, b)
    ensures a == b
  {
    hide Xor;
    XorCommutes(x, a);
    XorCommutes(x, b);
    XorTwice(a, x);
    XorTwice(b, x);
  }
}
