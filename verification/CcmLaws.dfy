/** RFC 3610: what is authenticated, and which blocks meet the cipher. */
module CcmLaws {
  import opened Arith
  import opened Numerals
  import opened Bytes
  import opened Blocks
  import opened CcmSpec

  // ---- big-endian fields and padded blocks determine what they hold ----

  lemma {:induction false} BigEndianDetermines(x: nat, y: nat, k: nat)
    requires x < Pow(256, k) && y < Pow(256, k) && BigEndian(x, k) == BigEndian(y, k)
    ensures x == y
  {
    if k == 0 {
      PowZero(256);
    } else {
      hide Pow;
      PowStep(256, k - 1);
      BigEndianStep(x, k - 1);
      BigEndianStep(y, k - 1);
      var a, b := BigEndian(x / 256, k - 1), BigEndian(y / 256, k - 1);
      assert (a + [x % 256])[..k - 1] == a && (b + [y % 256])[..k - 1] == b;
      assert (a + [x % 256])[k - 1] == x % 256 && (b + [y % 256])[k - 1] == y % 256;
      BelowQuotient(x, Pow(256, k - 1));
      BelowQuotient(y, Pow(256, k - 1));
      BigEndianDetermines(x / 256, y / 256, k - 1);
    }
  }

  lemma BelowQuotient(x: nat, p: nat)
    requires x < 256 * p
    ensures x / 256 < p
  {
  }

  /** Strings of one length are determined by their blocks. */
  lemma SplitDetermines(s: seq<Byte>, t: seq<Byte>)
    requires |s| == |t| && Split(s) == Split(t)
    ensures s == t
  {
    forall k | 0 <= k < |s|
      ensures s[k] == t[k]
    {
      assert Split(s)[k / 16] == Split(t)[k / 16];
      assert BlockAt(s, k / 16)[k % 16] == PaddedByte(s, 16 * (k / 16) + k % 16);
      assert BlockAt(t, k / 16)[k % 16] == PaddedByte(t, 16 * (k / 16) + k % 16);
    }
  }

  /** The length header says how long the additional data is: it is a prefix of no other. */
  lemma HeaderDetermines(la: nat, lb: nat, a: seq<Byte>, b: seq<Byte>)
    requires 0 < la < Pow(256, 8) && 0 < lb < Pow(256, 8) && |a| >= 10 && |b| >= 10
    requires LengthHeader(la) <= a && LengthHeader(lb) <= b && a[..10] == b[..10]
    ensures la == lb
  {
    hide Pow, BigEndian;
    FieldSizes();
    TopByte(la);
    TopByte(lb);
    var h, g := LengthHeader(la), LengthHeader(lb);
    assert h[0] == a[0] == a[..10][0] == b[..10][0] == b[0] == g[0];
    assert h[1] == a[1] == a[..10][1] == b[..10][1] == b[1] == g[1];
    assert |h| == |g| && h == a[..10][..|h|] == b[..10][..|g|] == g;
    if la < 0xFF00 {
      BigEndianDetermines(la, lb, 2);
    } else if la < Pow(256, 4) {
      assert h[2..] == BigEndian(la, 4) && g[2..] == BigEndian(lb, 4);
      BigEndianDetermines(la, lb, 4);
    } else {
      assert h[2..] == BigEndian(la, 8) && g[2..] == BigEndian(lb, 8);
      BigEndianDetermines(la, lb, 8);
    }
  }

  lemma FieldSizes()
    ensures Pow(256, 2) == 0x1_0000 && Pow(256, 4) == 0x1_0000_0000
  {
    assert Pow(256, 1) == 256;
    PowAdd(256, 2, 2);
  }

  /** Short lengths do not start with the byte that announces the longer fields. */
  lemma TopByte(la: nat)
    ensures la < 0xFF00 ==> BigEndian(la, 2)[0] < 0xFF
  {
  }

  // ---- the input of the MAC determines the message ----

  lemma FlagsDetermine(f: nat, e: nat, l: nat, f': nat, e': nat, l': nat)
    requires f <= 1 && f' <= 1 && e < 8 && e' < 8 && 1 <= l <= 8 && 1 <= l' <= 8
    requires 64 * f + 8 * e + (l - 1) == 64 * f' + 8 * e' + (l' - 1)
    ensures f == f' && e == e' && l == l'
  {
  }

  lemma FirstBlockDetermines(M: nat, L: nat, M': nat, L': nat, n: Nonce, n': Nonce, la: nat, la': nat, lm: nat, lm': nat)
    requires ValidParams(M, L) && ValidParams(M', L') && lm < Pow(256, L) && lm' < Pow(256, L')
    requires FirstBlock(M, L, n, la, lm) == FirstBlock(M', L', n', la', lm')
    ensures M == M' && L == L' && n[..15 - L] == n'[..15 - L] && lm == lm' && (la > 0 <==> la' > 0)
  {
    hide Pow, BigEndian;
    var b, b' := FirstBlock(M, L, n, la, lm), FirstBlock(M', L', n', la', lm');
    assert b[0] == b'[0];
    FlagsDetermine(if la > 0 then 1 else 0, M / 2 - 1, L, if la' > 0 then 1 else 0, M' / 2 - 1, L');
    assert b[1..16 - L] == n[..15 - L] && b'[1..16 - L] == n'[..15 - L];
    assert b[16 - L..] == BigEndian(lm, L) && b'[16 - L..] == BigEndian(lm', L);
    BigEndianDetermines(lm, lm', L);
  }

  /** The header of the additional data is at the front of its first block. */
  lemma HeaderInFront(aad: seq<Byte>)
    requires 0 < |aad| < Pow(256, 8)
    ensures AuthBlocks(aad) != [] && LengthHeader(|aad|) <= AuthBlocks(aad)[0]
  {
    hide Pow, BigEndian;
    var h := LengthHeader(|aad|);
    var s := h + aad;
    assert Split(s)[0] == BlockAt(s, 0);
    forall j | 0 <= j < |h|
      ensures BlockAt(s, 0)[j] == h[j]
    {
      assert BlockAt(s, 0)[j] == PaddedByte(s, 16 * 0 + j);
    }
  }

  lemma AuthDetermines(a: seq<Byte>, a': seq<Byte>)
    requires 0 < |a| < Pow(256, 8) && 0 < |a'| < Pow(256, 8)
    requires AuthBlocks(a) != [] && AuthBlocks(a') != [] && AuthBlocks(a)[0] == AuthBlocks(a')[0]
    ensures |a| == |a'|
    ensures AuthBlocks(a) == AuthBlocks(a') ==> a == a'
  {
    hide Pow, LengthHeader, Split;
    HeaderInFront(a);
    HeaderInFront(a');
    HeaderDetermines(|a|, |a'|, AuthBlocks(a)[0], AuthBlocks(a')[0]);
    if AuthBlocks(a) == AuthBlocks(a') {
      var h := LengthHeader(|a|);
      SplitDetermines(h + a, h + a');
      assert (h + a)[|h|..] == a && (h + a')[|h|..] == a';
    }
  }

  /** No input of the MAC is the front of another: the blocks determine both parameters, the
      nonce's counted bytes, the additional data and the message. */
  lemma MacInputDetermines(M: nat, L: nat, n: Nonce, a: seq<Byte>, m: seq<Byte>,
                           M': nat, L': nat, n': Nonce, a': seq<Byte>, m': seq<Byte>)
    requires ValidParams(M, L) && |a| < Pow(256, 8) && |m| < Pow(256, L)
    requires ValidParams(M', L') && |a'| < Pow(256, 8) && |m'| < Pow(256, L')
    requires MacBlocks(M, L, n, a, m) <= MacBlocks(M', L', n', a', m')
    ensures M == M' && L == L' && n[..15 - L] == n'[..15 - L] && a == a' && m == m'
  {
    hide Pow, FirstBlock, AuthBlocks, Split;
    var x, y := MacBlocks(M, L, n, a, m), MacBlocks(M', L', n', a', m');
    assert x[0] == FirstBlock(M, L, n, |a|, |m|) && y[0] == FirstBlock(M', L', n', |a'|, |m'|);
    FirstBlockDetermines(M, L, M', L', n, n', |a|, |a'|, |m|, |m'|);
    var p, q := AuthBlocks(a), AuthBlocks(a');
    if a != [] {
      HeaderInFront(a);
      HeaderInFront(a');
      assert x[1] == p[0] && y[1] == q[0];
      AuthDetermines(a, a');
    }
    AuthLength(a, a');
    assert x[1..1 + |p|] == p && y[1..1 + |q|] == q;
    assert x[1 + |p|..] == Split(m) && y[1 + |q|..] == Split(m');
    assert |Split(m)| == |Split(m')| && |x| == |y| && x == y;
    if a != [] {
      AuthDetermines(a, a');
    }
    SplitDetermines(m, m');
  }

  lemma AuthLength(a: seq<Byte>, a': seq<Byte>)
    requires |a| == |a'| < Pow(256, 8)
    ensures |AuthBlocks(a)| == |AuthBlocks(a')|
  {
    hide Pow, LengthHeader;
  }

  // ---- the chain ----

  ghost predicate Injective(E: BlockCipher) {
    forall x, y :: E(x) == E(y) ==> x == y
  }

  lemma FoldDetermines(x: Block, y: Block, b: Block)
    requires XorFront(x, b) == XorFront(y, b)
    ensures x == y
  {
    XorFrontTwice(x, b);
    XorFrontTwice(y, b);
  }

  lemma FoldSwaps(x: Block, b: Block)
    ensures XorFront(x, b) == XorFront(b, x)
  {
    hide Xor;
    forall j | 0 <= j < 16
      ensures XorFront(x, b)[j] == XorFront(b, x)[j]
    {
      XorCommutes(x[j], b[j]);
    }
  }

  /** Under a permutation a change of exactly one block, wherever it is, changes the MAC. */
  lemma {:induction false} ChainDetects(E: BlockCipher, bs: seq<Block>, i: nat, b: Block)
    requires Injective(E) && i < |bs| && b != bs[i]
    ensures CbcMac(E, bs[i := b]) != CbcMac(E, bs)
  {
    hide XorFront;
    var n := |bs| - 1;
    var cs := bs[i := b];
    if n > 0 {
      var x, y := CbcMac(E, bs[..n]), CbcMac(E, cs[..n]);
      if i < n {
        assert cs[..n] == bs[..n][i := b];
        ChainDetects(E, bs[..n], i, b);
        if XorFront(y, cs[n]) == XorFront(x, bs[n]) {
          FoldDetermines(y, x, bs[n]);
        }
      } else {
        assert cs[..n] == bs[..n];
        FoldSwaps(x, b);
        FoldSwaps(x, bs[n]);
        if XorFront(x, b) == XorFront(x, bs[n]) {
          FoldDetermines(b, bs[n], x);
        }
      }
    }
  }

  // ---- the key stream ----

  /** Counter blocks are determined by nonce and counter, and none is the first block of a MAC. */
  lemma CounterBlocksDiffer(L: nat, n: Nonce, n': Nonce, i: nat, j: nat)
    requires (L == 2 || L == 3) && i < Pow(256, L) && j < Pow(256, L)
    ensures CounterBlock(L, n, i) == CounterBlock(L, n', j) <==> n[..15 - L] == n'[..15 - L] && i == j
  {
    hide Pow, BigEndian;
    var b, b' := CounterBlock(L, n, i), CounterBlock(L, n', j);
    assert b[1..16 - L] == n[..15 - L] && b'[1..16 - L] == n'[..15 - L];
    assert b[16 - L..] == BigEndian(i, L) && b'[16 - L..] == BigEndian(j, L);
    if b == b' {
      BigEndianDetermines(i, j, L);
    }
  }

  lemma FirstBlockApart(M: nat, L: nat, n: Nonce, n': Nonce, la: nat, lm: nat, i: nat)
    requires ValidParams(M, L)
    ensures CounterBlock(L, n, i) != FirstBlock(M, L, n', la, lm)
  {
    hide BigEndian;
    assert CounterBlock(L, n, i)[0] == L - 1 && FirstBlock(M, L, n', la, lm)[0] >= 8;
  }

  /** Ciphers that differ on one counter block at most. */
  ghost predicate AgreeBut(E: BlockCipher, E': BlockCipher, L: nat, nonce: Nonce, i: nat)
    requires L == 2 || L == 3
  {
    forall b :: b != CounterBlock(L, nonce, i) ==> E(b) == E'(b)
  }

  /** What the cipher makes of counter block i reaches bytes 16 (i - 1) to 16 i of the message and
      no others; of counter block 0, none. */
  lemma StreamIsLocal(E: BlockCipher, E': BlockCipher, L: nat, nonce: Nonce, i: nat, m: seq<Byte>, k: nat)
    requires (L == 2 || L == 3) && i < Pow(256, L) && |m| < Pow(256, L) && k < |m| && AgreeBut(E, E', L, nonce, i)
    requires k / 16 != i - 1
    ensures Crypt(E, L, nonce, m)[k] == Crypt(E', L, nonce, m)[k]
  {
    hide Pow, CounterBlock, Xor;
    var j := k / 16 + 1;
    assert j <= |m|;
    CounterBlocksDiffer(L, nonce, nonce, j, i);
  }

  /** And there each byte of the message is under the byte of the cipher's block at its place. */
  lemma StreamIsUsed(E: BlockCipher, L: nat, nonce: Nonce, i: nat, m: seq<Byte>, k: nat)
    requires (L == 2 || L == 3) && i > 0 && k < |m| && k / 16 == i - 1
    ensures Xor(Crypt(E, L, nonce, m)[k], m[k]) == E(CounterBlock(L, nonce, i))[k - 16 * (i - 1)]
  {
    hide Xor, CounterBlock;
    var s := E(CounterBlock(L, nonce, i))[k % 16];
    XorCommutes(m[k], s);
    XorTwice(s, m[k]);
  }

  /** The tag is the MAC under counter block 0. */
  lemma TagIsMasked(E: BlockCipher, M: nat, L: nat, nonce: Nonce, aad: seq<Byte>, m: seq<Byte>, k: nat)
    requires ValidParams(M, L) && |aad| < Pow(256, 8) && k < M
    ensures Xor(Tag(E, M, L, nonce, aad, m)[k], CbcMac(E, MacBlocks(M, L, nonce, aad, m))[k]) == E(CounterBlock(L, nonce, 0))[k]
  {
    hide Pow, Xor, CounterBlock, CbcMac, MacBlocks;
    var x, y := CbcMac(E, MacBlocks(M, L, nonce, aad, m)), E(CounterBlock(L, nonce, 0));
    assert Tag(E, M, L, nonce, aad, m)[k] == Xor(x[k], y[k]);
    XorCommutes(x[k], y[k]);
    XorTwice(y[k], x[k]);
  }
}
