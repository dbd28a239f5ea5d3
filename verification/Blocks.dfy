/** Sixteen-byte blocks and big-endian fields: cutting a byte string into blocks, the last
    one padded with zeros. */
module Blocks {
  import opened Numerals
  import opened Bytes

  type Block = s: seq<Byte> | |s| == 16 witness seq(16, _ => 0)

  /** A block cipher under a fixed key: any function from block to block. */
  type BlockCipher = Block -> Block

  /** The last k bytes of n, most significant first. */
  function BigEndian(n: nat, k: nat): (s: seq<Byte>)
    ensures |s| == k
  {
    if k == 0 then [] else BigEndian(n / 256, k - 1) + [n % 256]
  }

  lemma BigEndianStep(n: nat, k: nat)
    ensures BigEndian(n, k + 1) == BigEndian(n / 256, k) + [n % 256]
  {
  }

  lemma {:induction false} BigEndianZero(k: nat)
    ensures forall i :: 0 <= i < k ==> BigEndian(0, k)[i] == 0
  {
    if k > 0 {
      BigEndianZero(k - 1);
    }
  }

  function XorAt(x: seq<Byte>, y: seq<Byte>, j: nat): Byte
    requires j < |x|
  {
    if j < |y| then Xor(x[j], y[j]) else x[j]
  }

  /** x with y folded into its front. */
  function XorFront(x: seq<Byte>, y: seq<Byte>): (r: seq<Byte>)
    requires |y| <= |x|
    ensures |r| == |x| && forall j :: 0 <= j < |x| ==> r[j] == XorAt(x, y, j)
  {
    seq(|x|, j requires 0 <= j < |x| => XorAt(x, y, j))
  }

  lemma XorFrontTwice(x: seq<Byte>, y: seq<Byte>)
    requires |y| <= |x|
    ensures XorFront(XorFront(x, y), y) == x
  {
    forall j | 0 <= j < |x|
      ensures XorFront(XorFront(x, y), y)[j] == x[j]
    {
      if j < |y| {
        XorTwice(x[j], y[j]);
      }
    }
  }

  /** Byte j of block i of s, which is padded with zeros. */
  function PaddedByte(s: seq<Byte>, k: nat): Byte {
    if k < |s| then s[k] else 0
  }

  function BlockAt(s: seq<Byte>, i: nat): (b: Block)
    ensures forall j :: 0 <= j < 16 ==> b[j] == PaddedByte(s, 16 * i + j)
  {
    if 16 * i + 16 <= |s| then s[16 * i..16 * i + 16]
    else if 16 * i <= |s| then s[16 * i..] + Zeros(16 * i + 16 - |s|)
    else Zeros(16)
  }

  function Zeros(n: nat): (z: seq<Byte>)
    ensures |z| == n && forall j :: 0 <= j < n ==> z[j] == 0
  {
    seq(n, _ => 0)
  }

  /** s cut into blocks, the last one padded with zeros. */
  function Split(s: seq<Byte>): (bs: seq<Block>)
    ensures |bs| == (|s| + 15) / 16 && forall i :: 0 <= i < |bs| ==> bs[i] == BlockAt(s, i)
  {
    seq((|s| + 15) / 16, i requires 0 <= i < (|s| + 15) / 16 => BlockAt(s, i))
  }

  lemma SplitLength(s: seq<Byte>)
    ensures 16 * |Split(s)| >= |s| && 16 * |Split(s)| < |s| + 16
  {
  }

  lemma WholeBlock(s: seq<Byte>, k: nat)
    requires 16 * k + 16 <= |s|
    ensures BlockAt(s, k) == s[16 * k..16 * k + 16]
  {
  }

  lemma LastBlock(s: seq<Byte>, k: nat, b: seq<Byte>)
    requires 16 * k <= |s| <= 16 * k + 16 && |b| == 16
    requires b[..|s| - 16 * k] == s[16 * k..] && forall j :: |s| - 16 * k <= j < 16 ==> b[j] == 0
    ensures b == BlockAt(s, k)
  {
  }

  /** The block that starts with a header and goes on with as much of s as there is room for. */
  lemma HeadBlock(h: seq<Byte>, s: seq<Byte>, i: nat, b: seq<Byte>)
    requires |b| == 16 && |h| <= 16 && i <= |s| && |h| + i <= 16 && (i == |s| || |h| + i == 16)
    requires b[..|h|] == h && b[|h|..|h| + i] == s[..i] && forall j :: |h| + i <= j < 16 ==> b[j] == 0
    ensures b == BlockAt(h + s, 0)
  {
    var t := BlockAt(h + s, 0);
    forall j | 0 <= j < 16
      ensures b[j] == t[j]
    {
      if j < |h| {
        assert b[j] == b[..|h|][j];
      } else if j < |h| + i {
        assert b[j] == b[|h|..|h| + i][j - |h|];
      }
    }
  }
}
