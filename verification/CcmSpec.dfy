/** CCM as RFC 3610 defines it, for an arbitrary block cipher. */
module CcmSpec {
  import opened Numerals
  import opened Basics
  import opened Bytes
  import opened Blocks

  /** The parameters for which ccm.c is meant: its counter mask needs 8 * L below 32,
      and RFC 3610 asks for L of at least 2 and an even M from 4 to 16. */
  predicate ValidParams(M: nat, L: nat) {
    (L == 2 || L == 3) && 4 <= M <= 16 && M % 2 == 0
  }

  type Nonce = Block   // sixteen bytes are passed, the first 15 - L count

  /** Section 2.2: B_0 is the flags, the nonce and the message length. */
  function FirstBlock(M: nat, L: nat, nonce: Nonce, la: nat, lm: nat): Block
    requires ValidParams(M, L)
  {
    [(if la > 0 then 64 else 0) + 8 * ((M - 2) / 2) + (L - 1)] + nonce[..15 - L] + BigEndian(lm, L)
  }

  /** Section 2.2: how the length of the additional data is written. */
  function LengthHeader(la: nat): (h: seq<Byte>)
    requires 0 < la < Pow(256, 8)
    ensures |h| <= 10
  {
    if la < 0xFF00 then BigEndian(la, 2)
    else if la < Pow(256, 4) then [0xFF, 0xFE] + BigEndian(la, 4)
    else [0xFF, 0xFF] + BigEndian(la, 8)
  }

  function AuthBlocks(aad: seq<Byte>): seq<Block>
    requires |aad| < Pow(256, 8)
  {
    if aad == [] then [] else Split(LengthHeader(|aad|) + aad)
  }

  /** Section 2.2: X_1 := E(B_0), X_{i+1} := E(X_i XOR B_i). */
  function CbcMac(E: BlockCipher, blocks: seq<Block>): Block
    requires blocks != []
  {
    var n := |blocks| - 1;
    if n == 0 then E(blocks[0]) else E(XorFront(CbcMac(E, blocks[..n]), blocks[n]))
  }

  function MacBlocks(M: nat, L: nat, nonce: Nonce, aad: seq<Byte>, m: seq<Byte>): (bs: seq<Block>)
    requires ValidParams(M, L) && |aad| < Pow(256, 8)
    ensures bs != []
  {
    [FirstBlock(M, L, nonce, |aad|, |m|)] + AuthBlocks(aad) + Split(m)
  }

  /** Section 2.3: A_i is the flags, the nonce and the counter. */
  function CounterBlock(L: nat, nonce: Nonce, i: nat): Block
    requires L == 2 || L == 3
  {
    [L - 1] + nonce[..15 - L] + BigEndian(i, L)
  }

  function KeyByte(E: BlockCipher, L: nat, nonce: Nonce, k: nat): Byte
    requires L == 2 || L == 3
  {
    E(CounterBlock(L, nonce, k / 16 + 1))[k % 16]
  }

  /** Section 2.3: the message under the key stream S_1 || S_2 || ... */
  function Crypt(E: BlockCipher, L: nat, nonce: Nonce, m: seq<Byte>): (c: seq<Byte>)
    requires L == 2 || L == 3
    ensures |c| == |m| && forall k :: 0 <= k < |m| ==> c[k] == Xor(m[k], KeyByte(E, L, nonce, k))
  {
    seq(|m|, k requires 0 <= k < |m| => Xor(m[k], KeyByte(E, L, nonce, k)))
  }

  /** Section 2.3: U is the authentication tag under S_0. */
  function Tag(E: BlockCipher, M: nat, L: nat, nonce: Nonce, aad: seq<Byte>, m: seq<Byte>): (u: seq<Byte>)
    requires ValidParams(M, L) && |aad| < Pow(256, 8)
    ensures |u| == M
  {
    XorFront(CbcMac(E, MacBlocks(M, L, nonce, aad, m))[..M], E(CounterBlock(L, nonce, 0))[..M])
  }

  /** Section 2.4: the encrypted message followed by U. */
  function Seal(E: BlockCipher, M: nat, L: nat, nonce: Nonce, aad: seq<Byte>, m: seq<Byte>): (c: seq<Byte>)
    requires ValidParams(M, L) && |aad| < Pow(256, 8)
    ensures |c| == |m| + M
  {
    Crypt(E, L, nonce, m) + Tag(E, M, L, nonce, aad, m)
  }

  /** Section 2.5: recover the message and check its tag. */
  function Open(E: BlockCipher, M: nat, L: nat, nonce: Nonce, aad: seq<Byte>, c: seq<Byte>): Option<seq<Byte>>
    requires ValidParams(M, L) && |aad| < Pow(256, 8)
  {
    if |c| < M then None
    else
      var n := |c| - M;
      var m := Crypt(E, L, nonce, c[..n]);
      var t := CbcMac(E, MacBlocks(M, L, nonce, aad, m))[..M];
      if t == XorFront(c[n..], E(CounterBlock(L, nonce, 0))[..M]) then Some(m) else None
  }

  // ---- chaining and the key stream, block by block ----

  /** X is the CBC-MAC of the front blocks and of the first k blocks of s. */
  ghost predicate Chained(E: BlockCipher, front: seq<Block>, s: seq<Byte>, k: nat, X: seq<Byte>) {
    front != [] && k <= |Split(s)| && X == CbcMac(E, front + Split(s)[..k])
  }

  lemma ChainStart(E: BlockCipher, front: seq<Block>, s: seq<Byte>)
    requires front != []
    ensures Chained(E, front, s, 0, CbcMac(E, front))
  {
    assert front + Split(s)[..0] == front;
  }

  lemma ChainStep(E: BlockCipher, front: seq<Block>, s: seq<Byte>, k: nat, X: Block, X': Block)
    requires Chained(E, front, s, k, X) && k < |Split(s)|
    requires X' == E(XorFront(X, BlockAt(s, k)))
    ensures Chained(E, front, s, k + 1, X')
  {
    hide XorFront, Split, BlockAt;
    var bs := front + Split(s)[..k + 1];
    assert bs[..|bs| - 1] == front + Split(s)[..k] && bs[|bs| - 1] == Split(s)[k];
  }

  lemma ChainEnd(E: BlockCipher, front: seq<Block>, s: seq<Byte>, X: seq<Byte>)
    requires Chained(E, front, s, |Split(s)|, X)
    ensures X == CbcMac(E, front + Split(s))
  {
    assert Split(s)[..|Split(s)|] == Split(s);
  }

  /** The message part of a block is all that changes the chain. */
  lemma FoldPart(X: Block, s: seq<Byte>, k: nat, d: seq<Byte>)
    requires |d| <= 16 && 16 * k + |d| <= |s| && d == s[16 * k..16 * k + |d|]
    requires |d| < 16 ==> 16 * k + |d| == |s|
    ensures XorFront(X, d) == XorFront(X, BlockAt(s, k))
  {
    hide Xor;
    forall j | 0 <= j < 16
      ensures XorFront(X, d)[j] == XorFront(X, BlockAt(s, k))[j]
    {
      XorNothing(X[j]);
    }
  }

  lemma XorNothing(a: Byte)
    ensures Xor(a, 0) == a
  {
    hide Xor;
    XorTwice(0, a);
    XorZero(Xor(0, a), a);
    XorCommutes(a, 0);
  }

  /** Of s, the first n bytes are under the key stream and the others are as they were. */
  ghost predicate CryptedTo(E: BlockCipher, L: nat, nonce: Nonce, s: seq<Byte>, n: nat, now: seq<Byte>)
    requires L == 2 || L == 3
  {
    && n <= |s| == |now|
    && (forall i :: 0 <= i < n ==> now[i] == Xor(s[i], KeyByte(E, L, nonce, i)))
    && (forall i :: n <= i < |s| ==> now[i] == s[i])
  }

  lemma CryptStep(E: BlockCipher, L: nat, nonce: Nonce, s: seq<Byte>, k: nat, len: nat, was: seq<Byte>, now: seq<Byte>)
    requires (L == 2 || L == 3) && len <= 16 && 16 * k + len <= |s| == |now|
    requires CryptedTo(E, L, nonce, s, 16 * k, was)
    requires forall i :: 16 * k <= i < 16 * k + len ==> now[i] == Xor(was[i], E(CounterBlock(L, nonce, k + 1))[i - 16 * k])
    requires forall i :: 0 <= i < |s| && !(16 * k <= i < 16 * k + len) ==> now[i] == was[i]
    ensures CryptedTo(E, L, nonce, s, 16 * k + len, now)
  {
    hide Xor, CounterBlock;
    forall i | 16 * k <= i < 16 * k + len
      ensures now[i] == Xor(s[i], KeyByte(E, L, nonce, i))
    {
      assert i / 16 == k && i % 16 == i - 16 * k;
    }
  }

  lemma CryptDone(E: BlockCipher, L: nat, nonce: Nonce, s: seq<Byte>, now: seq<Byte>)
    requires (L == 2 || L == 3) && CryptedTo(E, L, nonce, s, |s|, now)
    ensures now == Crypt(E, L, nonce, s)
  {
  }

  lemma CryptTwice(E: BlockCipher, L: nat, nonce: Nonce, m: seq<Byte>)
    requires L == 2 || L == 3
    ensures Crypt(E, L, nonce, Crypt(E, L, nonce, m)) == m
  {
    hide KeyByte, Xor;
    forall k | 0 <= k < |m|
      ensures Crypt(E, L, nonce, Crypt(E, L, nonce, m))[k] == m[k]
    {
      XorTwice(m[k], KeyByte(E, L, nonce, k));
    }
  }

  /** Exactly the sealed messages are accepted, and each opens to what was sealed:
      decryption restores the message, and accepts only what re-encrypts to its input. */
  lemma OpenIffSealed(E: BlockCipher, M: nat, L: nat, nonce: Nonce, aad: seq<Byte>, m: seq<Byte>, c: seq<Byte>)
    requires ValidParams(M, L) && |aad| < Pow(256, 8)
    ensures Open(E, M, L, nonce, aad, c) == Some(m) <==> c == Seal(E, M, L, nonce, aad, m)
  {
    hide Crypt, CbcMac, MacBlocks, Pow;
    if |c| >= M {
      var n := |c| - M;
      var s0 := E(CounterBlock(L, nonce, 0))[..M];
      var t := CbcMac(E, MacBlocks(M, L, nonce, aad, m))[..M];
      CryptTwice(E, L, nonce, m);
      CryptTwice(E, L, nonce, c[..n]);
      XorFrontTwice(c[n..], s0);
      XorFrontTwice(t, s0);
      assert c == c[..n] + c[n..];
      var r := Seal(E, M, L, nonce, aad, m);
      assert r[..|m|] == Crypt(E, L, nonce, m) && r[|m|..] == Tag(E, M, L, nonce, aad, m);
    }
  }
}
