/** ccm.c: CCM encryption and decryption in place, block by block, over a buffer that holds the
    message and has room for the tag. */
module CcmCode {
  import opened Numerals
  import opened Basics
  import opened Bytes
  import opened Blocks
  import opened CcmSpec

  // ---- byte buffers ----

  /** rijndael_encrypt: one block from input to output. */
  method EncryptBlock(E: BlockCipher, input: array<Byte>, output: array<Byte>)
    requires input.Length == output.Length == 16 && input != output
    modifies output
    ensures output[..] == E(input[..])
  {
    var s := E(input[..]);
    forall i | 0 <= i < 16 {
      output[i] := s[i];
    }
    assert output[..] == s && input[..] == old(input[..]);
  }

  /** memset with zero. */
  method Clear(a: array<Byte>, from: nat)
    requires from <= a.Length
    modifies a
    ensures a[..from] == old(a[..from])
    ensures forall i :: from <= i < a.Length ==> a[i] == 0
  {
    forall i | from <= i < a.Length {
      a[i] := 0;
    }
  }

  /** memcpy of s to a + at. */
  method Put(a: array<Byte>, at: nat, s: seq<Byte>)
    requires at + |s| <= a.Length
    modifies a
    ensures a[at..at + |s|] == s
    ensures forall i :: 0 <= i < a.Length && !(at <= i < at + |s|) ==> a[i] == old(a[i])
  {
    forall i | 0 <= i < |s| {
      a[at + i] := s[i];
    }
  }

  /** memxor of the first len bytes of y into x + at. */
  method MemXor(x: array<Byte>, at: nat, y: array<Byte>, len: nat)
    requires at + len <= x.Length && len <= y.Length && x != y
    modifies x
    ensures forall i :: at <= i < at + len ==> x[i] == Xor(old(x[i]), y[i - at])
    ensures forall i :: 0 <= i < x.Length && !(at <= i < at + len) ==> x[i] == old(x[i])
  {
    hide Xor;
    var n := 0;
    while n < len
      invariant 0 <= n <= len
      invariant forall i :: at <= i < at + n ==> x[i] == Xor(old(x[i]), y[i - at])
      invariant forall i :: 0 <= i < x.Length && !(at <= i < at + n) ==> x[i] == old(x[i])
    {
      x[at + n] := Xor(x[at + n], y[n]);
      n := n + 1;
    }
  }

  // ---- block0 ----

  method Block0(M: nat, L: nat, la: nat, lm: nat, nonce: Nonce, result: array<Byte>)
    requires ValidParams(M, L) && result.Length == 16
    modifies result
    ensures result[..] == FirstBlock(M, L, nonce, la, lm)
  {
    hide BigEndian;
    result[0] := (if la > 0 then 64 else 0) + 8 * ((M - 2) / 2) + (L - 1);
    Put(result, 1, nonce[..16 - L]);
    ghost var front, flags := result[..16 - L], result[0];
    assert forall i :: 0 <= i < 15 - L ==> front[i + 1] == result[1..17 - L][i] == nonce[i];
    assert front == [flags] + nonce[..15 - L];
    WriteLength(L, lm, result);
    assert result[..] == result[..16 - L] + result[16 - L..];
  }

  /** The length, least significant byte last. */
  method WriteLength(L: nat, lm: nat, result: array<Byte>)
    requires L <= 16 && result.Length == 16
    modifies result
    ensures result[..16 - L] == old(result[..16 - L]) && result[16 - L..] == BigEndian(lm, L)
  {
    hide BigEndian;
    var n := lm;
    for i := 0 to L
      invariant result[..16 - L] == old(result[..16 - L])
      invariant BigEndian(lm, L) == BigEndian(n, L - i) + result[16 - i..]
    {
      ghost var tail := result[16 - i..];
      BigEndianStep(n, L - i - 1);
      result[15 - i] := n % 256;
      assert result[15 - i..] == [n % 256] + tail;
      n := n / 256;
    }
  }

  // ---- SET_COUNTER ----

  ghost predicate IsTemplate(L: nat, nonce: Nonce, A: seq<Byte>) {
    (L == 2 || L == 3) && |A| == 16 && A[..16 - L] == [L - 1] + nonce[..15 - L]
  }

  method SetCounter(A: array<Byte>, L: nat, cnt: nat, ghost nonce: Nonce)
    requires A.Length == 16 && IsTemplate(L, nonce, A[..]) && cnt < Pow(256, L)
    modifies A
    ensures A[..] == CounterBlock(L, nonce, cnt) && IsTemplate(L, nonce, A[..])
  {
    hide Pow;
    Clear(A, 16 - L);
    var c: nat, i := cnt, 15;
    ghost var k: nat := L;
    while c != 0 && i > L
      invariant 0 <= k <= L && i == 15 - L + k && c < Pow(256, k)
      invariant A[..16 - L] == old(A[..16 - L])
      invariant forall j :: 16 - L <= j <= i ==> A[j] == 0
      invariant BigEndian(cnt, L) == BigEndian(c, k) + A[i + 1..]
    {
      ghost var tail := A[i + 1..];
      DropByte(c, k);
      A[i] := c % 256;
      assert A[i..] == [c % 256] + tail;
      c, i, k := c / 256, i - 1, k - 1;
    }
    DropByte(c, k);
    BigEndianZero(k);
    assert A[16 - L..] == BigEndian(c, k) + A[i + 1..];
    assert A[..] == A[..16 - L] + A[16 - L..];
  }

  lemma DropByte(c: nat, k: nat)
    requires c < Pow(256, k)
    ensures k == 0 ==> c == 0
    ensures k > 0 ==> c / 256 < Pow(256, k - 1)
  {
  }

  // ---- mac and encrypt ----

  /** One step of the CBC-MAC over len bytes of the message; the rest of B stays as it is. */
  method Mac(E: BlockCipher, msg: array<Byte>, at: nat, len: nat, B: array<Byte>, X: array<Byte>)
    requires at + len <= msg.Length && len <= 16 && B.Length == X.Length == 16 && B != X && B != msg && X != msg
    requires forall i :: len <= i < 16 ==> B[i] == X[i]
    modifies B, X
    ensures X[..] == E(XorFront(old(X[..]), msg[at..at + len]))
  {
    hide Xor;
    for i := 0 to len
      invariant forall j :: 0 <= j < i ==> B[j] == Xor(X[j], msg[at + j])
      invariant forall j :: i <= j < 16 ==> B[j] == old(B[j])
      invariant X[..] == old(X[..])
    {
      B[i] := Xor(X[i], msg[at + i]);
    }
    assert B[..] == XorFront(X[..], msg[at..at + len]);
    EncryptBlock(E, B, X);
  }

  method Encrypt(E: BlockCipher, L: nat, counter: nat, msg: array<Byte>, at: nat, len: nat,
                 A: array<Byte>, S: array<Byte>, ghost nonce: Nonce)
    requires at + len <= msg.Length && len <= 16 && A.Length == S.Length == 16 && A != S && A != msg && S != msg
    requires IsTemplate(L, nonce, A[..]) && counter < Pow(256, L)
    modifies A, S, msg
    ensures IsTemplate(L, nonce, A[..])
    ensures forall i :: at <= i < at + len ==> msg[i] == Xor(old(msg[i]), E(CounterBlock(L, nonce, counter))[i - at])
    ensures forall i :: 0 <= i < msg.Length && !(at <= i < at + len) ==> msg[i] == old(msg[i])
  {
    hide Xor, Pow, CounterBlock;
    SetCounter(A, L, counter, nonce);
    EncryptBlock(E, A, S);
    MemXor(msg, at, S, len);
  }

  // ---- add_auth_data ----

  /** B := B xor X, then X := E(B); the code's way of absorbing a block already in B. */
  method Absorb(E: BlockCipher, B: array<Byte>, X: array<Byte>)
    requires B.Length == X.Length == 16 && B != X
    modifies B, X
    ensures X[..] == E(XorFront(old(X[..]), old(B[..])))
  {
    hide Xor;
    MemXor(B, 0, X, 16);
    forall i | 0 <= i < 16
      ensures B[i] == XorFront(X[..], old(B[..]))[i]
    {
      XorCommutes(old(B[i]), X[i]);
    }
    assert B[..] == XorFront(X[..], old(B[..]));
    EncryptBlock(E, B, X);
  }

  /** The first block of the additional data, behind its length. */
  method FirstAuth(E: BlockCipher, aad: seq<Byte>, B: array<Byte>, X: array<Byte>) returns (i: nat)
    requires 0 < |aad| < Pow(256, 8) && B.Length == X.Length == 16 && B != X
    requires forall j :: 0 <= j < 16 ==> B[j] == 0
    modifies B, X
    ensures i == if 16 - |LengthHeader(|aad|)| <= |aad| then 16 - |LengthHeader(|aad|)| else |aad|
    ensures X[..] == E(XorFront(old(X[..]), BlockAt(LengthHeader(|aad|) + aad, 0)))
  {
    hide Pow, BigEndian, XorFront, BlockAt, LengthHeader;
    var la := |aad|;
    var j;
    if la < 0xFF00 {
      j := 2;
      Put(B, 0, BigEndian(la, 2));
    } else if la <= 0xFFFF_FFFF {
      j := 6;
      Put(B, 0, [0xFF, 0xFE]);
      Put(B, 2, BigEndian(la, 4));
    } else {
      j := 10;
      Put(B, 0, [0xFF, 0xFF]);
      Put(B, 2, BigEndian(la, 8));
    }
    HeaderBytes(la, B[..], j);
    ghost var head := B[..j];
    i := if 16 - j <= la then 16 - j else la;
    Put(B, j, aad[..i]);
    assert B[..j] == head;
    HeadBlock(head, aad, i, B[..]);
    Absorb(E, B, X);
  }

  lemma HeaderBytes(la: nat, B: seq<Byte>, j: nat)
    requires 0 < la < Pow(256, 8) && |B| == 16 && j <= 10
    requires la < 0xFF00 ==> j == 2 && B[..2] == BigEndian(la, 2)
    requires 0xFF00 <= la <= 0xFFFF_FFFF ==> j == 6 && B[0] == 0xFF && B[1] == 0xFE && B[2..6] == BigEndian(la, 4)
    requires la > 0xFFFF_FFFF ==> j == 10 && B[0] == B[1] == 0xFF && B[2..10] == BigEndian(la, 8)
    ensures B[..j] == LengthHeader(la)
  {
    hide BigEndian;
    assert Pow(256, 4) == 0x1_0000_0000 by { assert Pow(256, 2) == 65536; PowAdd(256, 2, 2); }
  }

  method AddAuthData(E: BlockCipher, aad: seq<Byte>, B: array<Byte>, X: array<Byte>)
    requires |aad| < Pow(256, 8) && B.Length == X.Length == 16 && B != X
    modifies B, X
    ensures X[..] == CbcMac(E, [old(B[..])] + AuthBlocks(aad))
  {
    hide Pow, LengthHeader, BlockAt, Split, XorFront, Chained;
    ghost var front: seq<Block> := [B[..]];
    EncryptBlock(E, B, X);
    Clear(B, 0);
    if |aad| == 0 {
      assert front + AuthBlocks(aad) == front;
      return;
    }
    ghost var h := LengthHeader(|aad|) + aad;
    ChainStart(E, front, h);
    ghost var x0 := X[..];
    var pos := FirstAuth(E, aad, B, X);
    SplitLength(h);
    ChainStep(E, front, h, 0, x0, X[..]);
    AuthRest(E, aad, pos, B, X, front, h);
    ChainEnd(E, front, h, X[..]);
  }

  /** The blocks of authenticated data behind the first. */
  method AuthRest(E: BlockCipher, aad: seq<Byte>, start: nat, B: array<Byte>, X: array<Byte>,
                  ghost front: seq<Block>, ghost h: seq<Byte>)
    requires B.Length == X.Length == 16 && B != X && start <= |aad| < Pow(256, 8)
    requires |aad| > 0 && h == LengthHeader(|aad|) + aad && Chained(E, front, h, 1, X[..])
    requires (start < |aad| ==> |aad| - start == |h| - 16) && (start == |aad| ==> |Split(h)| == 1)
    modifies B, X
    ensures Chained(E, front, h, |Split(h)|, X[..])
  {
    hide Pow, LengthHeader, BlockAt, Split, XorFront, Chained;
    var pos := start;
    ghost var k := 1;
    var la := |aad| - pos;
    while la > 16
      invariant 0 <= la && pos == |aad| - la && k >= 1 && (la > 0 ==> la == |h| - 16 * k) && (la == 0 ==> k == |Split(h)|)
      invariant Chained(E, front, h, k, X[..])
    {
      ghost var x := X[..];
      Put(B, 0, aad[pos..pos + 16]);
      assert B[..] == aad[pos..pos + 16] == BlockAt(h, k) by { WholeBlock(h, k); }
      Absorb(E, B, X);
      SplitLength(h);
      ChainStep(E, front, h, k, x, X[..]);
      la, pos, k := la - 16, pos + 16, k + 1;
    }
    if la > 0 {
      ghost var x := X[..];
      Clear(B, 0);
      Put(B, 0, aad[pos..]);
      assert B[..] == BlockAt(h, k) by { LastBlock(h, k, B[..]); }
      Absorb(E, B, X);
      SplitLength(h);
      ChainStep(E, front, h, k, x, X[..]);
      k := k + 1;
    }
    SplitLength(h);
  }

  // ---- dtls_ccm_encrypt_message and dtls_ccm_decrypt_message ----

  /** Where a run stands: k blocks of the plain text m are in the MAC, n bytes of the
      buffer's original text s are under the key stream. */
  ghost predicate Running(E: BlockCipher, L: nat, nonce: Nonce, front: seq<Block>, m: seq<Byte>, s: seq<Byte>,
                          k: nat, n: nat, A: seq<Byte>, X: seq<Byte>, now: seq<Byte>)
  {
    IsTemplate(L, nonce, A) && Chained(E, front, m, k, X) && CryptedTo(E, L, nonce, s, n, now)
  }

  /** The work areas, ready for the first message block. */
  method Prepare(E: BlockCipher, M: nat, L: nat, nonce: Nonce, aad: seq<Byte>, lm: nat,
                 ghost m: seq<Byte>, ghost s: seq<Byte>)
    returns (A: array<Byte>, B: array<Byte>, S: array<Byte>, X: array<Byte>)
    requires ValidParams(M, L) && |aad| < Pow(256, 8) && |m| == |s| == lm
    ensures A.Length == B.Length == S.Length == X.Length == 16
    ensures fresh(A) && fresh(B) && fresh(S) && fresh(X) && A != B && A != S && A != X && B != S && B != X && S != X
    ensures Running(E, L, nonce, Front(M, L, nonce, aad, lm), m, s, 0, 0, A[..], X[..], s)
  {
    hide Pow, CbcMac, FirstBlock, AuthBlocks, BigEndian, Xor;
    A, B, S, X := new Byte[16](_ => 0), new Byte[16](_ => 0), new Byte[16](_ => 0), new Byte[16](_ => 0);
    Block0(M, L, |aad|, lm, nonce, B);
    AddAuthData(E, aad, B, X);
    ChainStart(E, Front(M, L, nonce, aad, lm), m);
    A[0] := L - 1;
    Put(A, 1, nonce[..16 - L]);
    assert forall i :: 0 <= i < 15 - L ==> A[i + 1] == A[1..17 - L][i] == nonce[i];
    assert A[..16 - L] == [L - 1] + nonce[..15 - L];
  }

  /** The blocks that go before the message. */
  function Front(M: nat, L: nat, nonce: Nonce, aad: seq<Byte>, lm: nat): (bs: seq<Block>)
    requires ValidParams(M, L) && |aad| < Pow(256, 8)
    ensures bs != []
  {
    [FirstBlock(M, L, nonce, |aad|, lm)] + AuthBlocks(aad)
  }

  lemma StillThere(E: BlockCipher, L: nat, nonce: Nonce, s: seq<Byte>, n: nat, len: nat, was: seq<Byte>)
    requires (L == 2 || L == 3) && n + len <= |s| && CryptedTo(E, L, nonce, s, n, was)
    ensures was[n..n + len] == s[n..n + len]
  {
    hide Xor, KeyByte;
  }

  lemma CryptedSlice(E: BlockCipher, L: nat, nonce: Nonce, s: seq<Byte>, from: nat, to: nat, now: seq<Byte>)
    requires (L == 2 || L == 3) && from <= to && CryptedTo(E, L, nonce, s, to, now)
    ensures now[from..to] == Crypt(E, L, nonce, s)[from..to]
  {
    hide Xor, KeyByte;
  }

  /** One block under the key stream, in a buffer that holds s from start on. */
  lemma WindowStep(E: BlockCipher, L: nat, nonce: Nonce, s: seq<Byte>, k: nat, len: nat, before: seq<Byte>, after: seq<Byte>, start: nat)
    requires (L == 2 || L == 3) && len <= 16 && 16 * k + len <= |s| && start + |s| <= |before| == |after|
    requires CryptedTo(E, L, nonce, s, 16 * k, before[start..start + |s|])
    requires var at := start + 16 * k;
      && (forall i :: at <= i < at + len ==> after[i] == Xor(before[i], E(CounterBlock(L, nonce, k + 1))[i - at]))
      && (forall i :: 0 <= i < |after| && !(at <= i < at + len) ==> after[i] == before[i])
    ensures CryptedTo(E, L, nonce, s, 16 * k + len, after[start..start + |s|])
  {
    hide Xor, CounterBlock, CryptedTo;
    var was, now := before[start..start + |s|], after[start..start + |s|];
    assert forall i :: 0 <= i < |s| ==> now[i] == after[start + i];
    assert forall i :: 0 <= i < |s| ==> was[i] == before[start + i];
    CryptStep(E, L, nonce, s, k, len, was, now);
  }

  lemma Inside(s: seq<Byte>, start: nat, n: nat, at: nat, len: nat)
    requires start + n <= |s| && at + len <= n
    ensures s[start + at..start + at + len] == s[start..start + n][at..at + len]
  {
    var u, v := s[start..start + n][at..at + len], s[start + at..start + at + len];
    assert forall i :: 0 <= i < len ==> u[i] == v[i];
  }

  /** One block of encryption: the MAC first, then the key stream. */
  method SealStep(E: BlockCipher, L: nat, nonce: Nonce, counter: nat, msg: array<Byte>, at: nat, len: nat,
                  A: array<Byte>, B: array<Byte>, S: array<Byte>, X: array<Byte>,
                  ghost front: seq<Block>, ghost m: seq<Byte>, ghost k: nat)
    requires at + len <= msg.Length && 16 * k <= at && 0 < len <= 16 && at - 16 * k + |m| <= msg.Length
    requires 16 * k + len <= |m| && (len < 16 ==> 16 * k + len == |m|)
    requires (L == 2 || L == 3) && counter == k + 1 < Pow(256, L)
    requires A.Length == B.Length == S.Length == X.Length == 16
    requires A != B && A != S && A != X && B != S && B != X && S != X && msg != A && msg != B && msg != S && msg != X
    requires forall i :: len <= i < 16 ==> B[i] == X[i]
    requires Running(E, L, nonce, front, m, m, k, 16 * k, A[..], X[..], msg[at - 16 * k..at - 16 * k + |m|])
    modifies A, B, S, X, msg
    ensures Running(E, L, nonce, front, m, m, k + 1, 16 * k + len, A[..], X[..], msg[at - 16 * k..at - 16 * k + |m|])
    ensures forall i :: 0 <= i < msg.Length && !(at <= i < at + len) ==> msg[i] == old(msg[i])
  {
    hide Pow, CbcMac, Xor, XorFront, KeyByte, CounterBlock, BlockAt, Split, Chained, CryptedTo, IsTemplate;
    ghost var before, start, was, x := msg[..], at - 16 * k, msg[at - 16 * k..at - 16 * k + |m|], X[..];
    ghost var d := m[16 * k..16 * k + len];
    StillThere(E, L, nonce, m, 16 * k, len, was);
    Inside(msg[..], start, |m|, 16 * k, len);
    assert msg[at..at + len] == was[16 * k..16 * k + len] == d;
    Mac(E, msg, at, len, B, X);
    FoldPart(x, m, k, d);
    SplitLength(m);
    ChainStep(E, front, m, k, x, X[..]);
    Encrypt(E, L, counter, msg, at, len, A, S, nonce);
    WindowStep(E, L, nonce, m, k, len, before, msg[..], start);
  }

  /** One block of decryption: the key stream first, then the MAC of what it gave. */
  method OpenStep(E: BlockCipher, L: nat, nonce: Nonce, counter: nat, msg: array<Byte>, at: nat, len: nat,
                  A: array<Byte>, B: array<Byte>, S: array<Byte>, X: array<Byte>,
                  ghost front: seq<Block>, ghost c: seq<Byte>, ghost k: nat)
    requires L == 2 || L == 3
    requires at + len <= msg.Length && 16 * k <= at && 0 < len <= 16 && at - 16 * k + |c| <= msg.Length
    requires 16 * k + len <= |c| && (len < 16 ==> 16 * k + len == |c|)
    requires counter == k + 1 < Pow(256, L)
    requires A.Length == B.Length == S.Length == X.Length == 16
    requires A != B && A != S && A != X && B != S && B != X && S != X && msg != A && msg != B && msg != S && msg != X
    requires forall i :: len <= i < 16 ==> B[i] == X[i]
    requires Running(E, L, nonce, front, Crypt(E, L, nonce, c), c, k, 16 * k, A[..], X[..], msg[at - 16 * k..at - 16 * k + |c|])
    modifies A, B, S, X, msg
    ensures Running(E, L, nonce, front, Crypt(E, L, nonce, c), c, k + 1, 16 * k + len, A[..], X[..], msg[at - 16 * k..at - 16 * k + |c|])
    ensures forall i :: 0 <= i < msg.Length && !(at <= i < at + len) ==> msg[i] == old(msg[i])
  {
    hide Pow, CbcMac, Xor, XorFront, KeyByte, CounterBlock, BlockAt, Split, Chained, CryptedTo, IsTemplate;
    ghost var before, start, x := msg[..], at - 16 * k, X[..];
    ghost var m := Crypt(E, L, nonce, c);
    Encrypt(E, L, counter, msg, at, len, A, S, nonce);
    ghost var now := msg[start..start + |c|];
    WindowStep(E, L, nonce, c, k, len, before, msg[..], start);
    Inside(msg[..], start, |c|, 16 * k, len);
    CryptedSlice(E, L, nonce, c, 16 * k, 16 * k + len, now);
    assert msg[at..at + len] == now[16 * k..16 * k + len] == m[16 * k..16 * k + len];
    Mac(E, msg, at, len, B, X);
    assert msg[start..start + |c|] == now;
    FoldPart(x, m, k, m[16 * k..16 * k + len]);
    SplitLength(m);
    ChainStep(E, front, m, k, x, X[..]);
  }

  /** The tail of a partial block of B is taken over from X. */
  method Pad(B: array<Byte>, X: array<Byte>, lm: nat)
    requires lm <= 16 && B.Length == X.Length == 16 && B != X
    modifies B
    ensures forall i :: lm <= i < 16 ==> B[i] == X[i]
  {
    Put(B, lm, X[lm..]);
    assert forall i :: lm <= i < 16 ==> B[i] == B[lm..16][i - lm];
  }

  lemma EnoughCounters(lm: nat, L: nat, k: nat)
    requires lm < Pow(256, L) && 16 * k < lm
    ensures k + 1 < Pow(256, L)
  {
  }

  /** The loop of encryption with its last, partial block. */
  method SealBlocks(E: BlockCipher, L: nat, nonce: Nonce, msg: array<Byte>, start: nat, len: nat,
                    A: array<Byte>, B: array<Byte>, S: array<Byte>, X: array<Byte>,
                    ghost front: seq<Block>, ghost m: seq<Byte>)
    returns (at: nat, ghost k: nat)
    requires (L == 2 || L == 3) && len < Pow(256, L) && |m| == len && start + len <= msg.Length
    requires A.Length == B.Length == S.Length == X.Length == 16
    requires A != B && A != S && A != X && B != S && B != X && S != X && msg != A && msg != B && msg != S && msg != X
    requires Running(E, L, nonce, front, m, m, 0, 0, A[..], X[..], msg[start..start + len])
    modifies A, B, S, X, msg
    ensures at == start + len && len <= 16 * k < len + 16
    ensures Running(E, L, nonce, front, m, m, k, len, A[..], X[..], msg[start..start + len])
    ensures forall i :: 0 <= i < msg.Length && !(start <= i < start + len) ==> msg[i] == old(msg[i])
  {
    hide Pow, Running, Crypt;
    var lm, counter := len, 1;
    at, k := start, 0;
    while lm >= 16
      invariant 0 <= lm && at == start + 16 * k && at + lm == start + len && counter == k + 1
      invariant Running(E, L, nonce, front, m, m, k, 16 * k, A[..], X[..], msg[start..start + len])
      invariant forall i :: 0 <= i < msg.Length && !(start <= i < start + len) ==> msg[i] == old(msg[i])
    {
      EnoughCounters(len, L, k);
      SealStep(E, L, nonce, counter, msg, at, 16, A, B, S, X, front, m, k);
      lm, at, counter, k := lm - 16, at + 16, counter + 1, k + 1;
    }
    if lm > 0 {
      EnoughCounters(len, L, k);
      Pad(B, X, lm);
      SealStep(E, L, nonce, counter, msg, at, lm, A, B, S, X, front, m, k);
      at, k := at + lm, k + 1;
    }
  }

  /** The loop of decryption with its last, partial block. */
  method OpenBlocks(E: BlockCipher, L: nat, nonce: Nonce, msg: array<Byte>, start: nat, len: nat,
                    A: array<Byte>, B: array<Byte>, S: array<Byte>, X: array<Byte>,
                    ghost front: seq<Block>, ghost c: seq<Byte>)
    returns (at: nat, ghost k: nat)
    requires (L == 2 || L == 3) && len < Pow(256, L) && |c| == len && start + len <= msg.Length
    requires A.Length == B.Length == S.Length == X.Length == 16
    requires A != B && A != S && A != X && B != S && B != X && S != X && msg != A && msg != B && msg != S && msg != X
    requires Running(E, L, nonce, front, Crypt(E, L, nonce, c), c, 0, 0, A[..], X[..], msg[start..start + len])
    modifies A, B, S, X, msg
    ensures at == start + len && len <= 16 * k < len + 16
    ensures Running(E, L, nonce, front, Crypt(E, L, nonce, c), c, k, len, A[..], X[..], msg[start..start + len])
    ensures forall i :: 0 <= i < msg.Length && !(start <= i < start + len) ==> msg[i] == old(msg[i])
  {
    hide Pow, Running, Crypt;
    var lm, counter := len, 1;
    at, k := start, 0;
    while lm >= 16
      invariant 0 <= lm && at == start + 16 * k && at + lm == start + len && counter == k + 1
      invariant Running(E, L, nonce, front, Crypt(E, L, nonce, c), c, k, 16 * k, A[..], X[..], msg[start..start + len])
      invariant forall i :: 0 <= i < msg.Length && !(start <= i < start + len) ==> msg[i] == old(msg[i])
    {
      EnoughCounters(len, L, k);
      OpenStep(E, L, nonce, counter, msg, at, 16, A, B, S, X, front, c, k);
      lm, at, counter, k := lm - 16, at + 16, counter + 1, k + 1;
    }
    if lm > 0 {
      EnoughCounters(len, L, k);
      Pad(B, X, lm);
      OpenStep(E, L, nonce, counter, msg, at, lm, A, B, S, X, front, c, k);
      at, k := at + lm, k + 1;
    }
  }

  /** The tag goes behind the message. */
  method Append(E: BlockCipher, M: nat, L: nat, nonce: Nonce, msg: array<Byte>, at: nat,
                A: array<Byte>, S: array<Byte>, X: array<Byte>)
    requires ValidParams(M, L) && at + M <= msg.Length && A.Length == S.Length == X.Length == 16
    requires A != S && A != X && S != X && msg != A && msg != S && msg != X && IsTemplate(L, nonce, A[..])
    modifies A, S, msg
    ensures msg[at..at + M] == XorFront(X[..M], E(CounterBlock(L, nonce, 0))[..M])
    ensures forall i :: 0 <= i < msg.Length && !(at <= i < at + M) ==> msg[i] == old(msg[i])
  {
    hide Xor, CounterBlock, Pow;
    PowPos(256, L);
    SetCounter(A, L, 0, nonce);
    EncryptBlock(E, A, S);
    for i := 0 to M
      invariant forall j :: at <= j < at + i ==> msg[j] == Xor(X[j - at], S[j - at])
      invariant forall j :: 0 <= j < msg.Length && !(at <= j < at + i) ==> msg[j] == old(msg[j])
      invariant S[..] == E(CounterBlock(L, nonce, 0)) && X[..] == old(X[..])
    {
      msg[at + i] := Xor(X[i], S[i]);
    }
  }

  lemma AllBlocks(E: BlockCipher, M: nat, L: nat, nonce: Nonce, aad: seq<Byte>, m: seq<Byte>, s: seq<Byte>, k: nat,
                  A: seq<Byte>, X: seq<Byte>, now: seq<Byte>)
    requires ValidParams(M, L) && |aad| < Pow(256, 8) && |m| == |s| && 16 * k >= |m| && 16 * k < |m| + 16
    requires Running(E, L, nonce, Front(M, L, nonce, aad, |m|), m, s, k, |m|, A, X, now)
    ensures X == CbcMac(E, MacBlocks(M, L, nonce, aad, m)) && now == Crypt(E, L, nonce, s) && IsTemplate(L, nonce, A)
  {
    hide Pow, CbcMac, FirstBlock, AuthBlocks;
    SplitLength(m);
    ChainEnd(E, Front(M, L, nonce, aad, |m|), m, X);
    CryptDone(E, L, nonce, s, now);
  }

  lemma Sealed(E: BlockCipher, M: nat, L: nat, nonce: Nonce, aad: seq<Byte>, m: seq<Byte>, X: seq<Byte>, c: seq<Byte>, u: seq<Byte>)
    requires ValidParams(M, L) && |aad| < Pow(256, 8) && |X| == 16
    requires X == CbcMac(E, MacBlocks(M, L, nonce, aad, m)) && c == Crypt(E, L, nonce, m)
    requires u == XorFront(X[..M], E(CounterBlock(L, nonce, 0))[..M])
    ensures c + u == Seal(E, M, L, nonce, aad, m)
  {
  }

  method EncryptMessage(E: BlockCipher, M: nat, L: nat, nonce: Nonce, msg: array<Byte>, start: nat, lm: nat, aad: seq<Byte>)
    returns (r: int)
    requires ValidParams(M, L) && lm < Pow(256, L) && |aad| < Pow(256, 8) && start + lm + M <= msg.Length
    modifies msg
    ensures r == lm + M
    ensures msg[start..start + lm + M] == Seal(E, M, L, nonce, aad, old(msg[start..start + lm]))
    ensures msg[..start] == old(msg[..start]) && msg[start + lm + M..] == old(msg[start + lm + M..])
  {
    hide Pow, Running, Seal, Front, Crypt, XorFront, CounterBlock, CbcMac, MacBlocks;
    ghost var m := msg[start..start + lm];
    var A, B, S, X := Prepare(E, M, L, nonce, aad, lm, m, m);
    var at, k := SealBlocks(E, L, nonce, msg, start, lm, A, B, S, X, Front(M, L, nonce, aad, lm), m);
    AllBlocks(E, M, L, nonce, aad, m, m, k, A[..], X[..], msg[start..at]);
    ghost var c := msg[start..at];
    Append(E, M, L, nonce, msg, at, A, S, X);
    Sealed(E, M, L, nonce, aad, m, X[..], c, msg[at..at + M]);
    assert msg[start..at] == c;
    assert msg[start..at + M] == c + msg[at..at + M];
    r := lm + M;
  }

  /** Decrypts in place and returns the length of the message, or -1 when its tag is wrong. The
      buffer then holds the decrypted bytes and the decrypted tag either way. */
  method DecryptMessage(E: BlockCipher, M: nat, L: nat, nonce: Nonce, msg: array<Byte>, start: nat, lm: nat, aad: seq<Byte>)
    returns (r: int)
    requires ValidParams(M, L) && lm < Pow(256, L) && |aad| < Pow(256, 8) && start + lm <= msg.Length
    modifies msg
    ensures var d := Open(E, M, L, nonce, aad, old(msg[start..start + lm]));
      if d.Some? then r == |d.value| == lm - M && msg[start..start + lm - M] == d.value else r == -1
    ensures lm < M ==> msg[..] == old(msg[..])
    ensures lm >= M ==> msg[start..start + lm - M] == Crypt(E, L, nonce, old(msg[start..start + lm - M]))
    ensures msg[..start] == old(msg[..start]) && msg[start + lm..] == old(msg[start + lm..])
  {
    hide Pow, Running, Open, Front, Crypt, XorFront, CounterBlock, CbcMac, MacBlocks;
    ghost var before, all := msg[..], msg[start..start + lm];
    if lm < M {
      TooShort(E, M, L, nonce, aad, all);
      return -1;
    }
    var n := lm - M;
    ghost var c, u := msg[start..start + n], msg[start + n..start + lm];
    assert all == c + u;
    var A, B, S, X := Prepare(E, M, L, nonce, aad, n, Crypt(E, L, nonce, c), c);
    var at, k := OpenBlocks(E, L, nonce, msg, start, n, A, B, S, X, Front(M, L, nonce, aad, n), c);
    AllBlocks(E, M, L, nonce, aad, Crypt(E, L, nonce, c), c, k, A[..], X[..], msg[start..at]);
    ghost var plain := msg[start..at];
    assert msg[at..at + M] == u;
    var same := CheckTag(E, M, L, nonce, msg, at, A, S, X);
    Opened(E, M, L, nonce, aad, c, u, X[..], same);
    assert msg[start..at] == plain;
    Untouched(before, msg[..], start, start + lm);
    r := if same then n else -1;
  }

  lemma Untouched(before: seq<Byte>, after: seq<Byte>, from: nat, to: nat)
    requires from <= to <= |before| == |after|
    requires forall i :: 0 <= i < |after| && !(from <= i < to) ==> after[i] == before[i]
    ensures after[..from] == before[..from] && after[to..] == before[to..]
  {
  }

  lemma TooShort(E: BlockCipher, M: nat, L: nat, nonce: Nonce, aad: seq<Byte>, c: seq<Byte>)
    requires ValidParams(M, L) && |aad| < Pow(256, 8) && |c| < M
    ensures Open(E, M, L, nonce, aad, c) == None
  {
  }

  lemma Opened(E: BlockCipher, M: nat, L: nat, nonce: Nonce, aad: seq<Byte>, c: seq<Byte>, u: seq<Byte>, X: seq<Byte>, same: bool)
    requires ValidParams(M, L) && |aad| < Pow(256, 8) && |X| == 16 && |u| == M
    requires X == CbcMac(E, MacBlocks(M, L, nonce, aad, Crypt(E, L, nonce, c)))
    requires same <==> X[..M] == XorFront(u, E(CounterBlock(L, nonce, 0))[..M])
    ensures Open(E, M, L, nonce, aad, c + u) == if same then Some(Crypt(E, L, nonce, c)) else None
  {
    hide Pow, Crypt, CbcMac, MacBlocks, CounterBlock;
    assert (c + u)[..|c|] == c && (c + u)[|c|..] == u;
  }

  /** Takes S_0 off the tag and compares it with X. */
  method CheckTag(E: BlockCipher, M: nat, L: nat, nonce: Nonce, msg: array<Byte>, at: nat,
                  A: array<Byte>, S: array<Byte>, X: array<Byte>) returns (same: bool)
    requires ValidParams(M, L) && at + M <= msg.Length && A.Length == S.Length == X.Length == 16
    requires A != S && A != X && S != X && msg != A && msg != S && msg != X && IsTemplate(L, nonce, A[..])
    modifies A, S, msg
    ensures same <==> X[..M] == XorFront(old(msg[at..at + M]), E(CounterBlock(L, nonce, 0))[..M])
    ensures forall i :: 0 <= i < msg.Length && !(at <= i < at + M) ==> msg[i] == old(msg[i])
  {
    hide Xor, CounterBlock, Pow;
    PowPos(256, L);
    SetCounter(A, L, 0, nonce);
    EncryptBlock(E, A, S);
    MemXor(msg, at, S, M);
    assert msg[at..at + M] == XorFront(old(msg[at..at + M]), E(CounterBlock(L, nonce, 0))[..M]);
    same := Equals(X, msg, at, M);
  }

  /** Compares all len bytes, whatever it finds on the way. */
  method Equals(a: array<Byte>, b: array<Byte>, at: nat, len: nat) returns (result: bool)
    requires len <= a.Length && at + len <= b.Length
    ensures result <==> a[..len] == b[at..at + len]
  {
    result := true;
    for i := 0 to len
      invariant result <==> a[..i] == b[at..at + i]
    {
      result := result && a[i] == b[at + i];
      assert a[..i + 1] == a[..i] + [a[i]] && b[at..at + (i + 1)] == b[at..at + i] + [b[at + i]];
    }
  }
}
