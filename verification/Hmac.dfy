/** hmac.c: HMAC-SHA-256 with one pad that serves for both keys. */
module Hmac {
  import opened Bytes
  import opened Blocks
  import opened Sha256Spec
  import Code = Sha256Code

  const HMAC_BLOCKSIZE := 64

  /** Section 2 of RFC 2104: the key, hashed if it is too long, padded with zeros. */
  function BlockKey(key: seq<Byte>): (k: seq<Byte>)
    ensures |k| == HMAC_BLOCKSIZE
  {
    if |key| > HMAC_BLOCKSIZE then Sha256(key) + Zeros(32) else key + Zeros(HMAC_BLOCKSIZE - |key|)
  }

  function XorAll(k: seq<Byte>, b: Byte): (r: seq<Byte>)
    ensures |r| == |k| && forall i :: 0 <= i < |k| ==> r[i] == Xor(k[i], b)
  {
    seq(|k|, i requires 0 <= i < |k| => Xor(k[i], b))
  }

  /** Section 2 of RFC 2104: H(K XOR opad, H(K XOR ipad, text)). */
  function Mac(key: seq<Byte>, text: seq<Byte>): (d: seq<Byte>)
    ensures |d| == DIGEST_LENGTH
  {
    Sha256(Outer(key, text))
  }

  function Inner(key: seq<Byte>, text: seq<Byte>): seq<Byte> { XorAll(BlockKey(key), 0x36) + text }

  function Outer(key: seq<Byte>, text: seq<Byte>): seq<Byte> { XorAll(BlockKey(key), 0x5C) + Sha256(Inner(key, text)) }

  predicate Collide(x: seq<Byte>, y: seq<Byte>) { x != y && Sha256(x) == Sha256(y) }

  /** The MAC determines the block key and the text, unless it comes with a collision of the hash. */
  lemma MacDetermines(key: seq<Byte>, text: seq<Byte>, key': seq<Byte>, text': seq<Byte>)
    requires Mac(key, text) == Mac(key', text')
    ensures
      || (BlockKey(key) == BlockKey(key') && text == text')
      || Collide(Outer(key, text), Outer(key', text')) || Collide(Inner(key, text), Inner(key', text'))
  {
    hide Sha256, BlockKey;
    var o, o' := Outer(key, text), Outer(key', text');
    if o == o' {
      XorAllDetermines(BlockKey(key), BlockKey(key'), 0x5C, o, o');
      assert Sha256(Inner(key, text)) == o[HMAC_BLOCKSIZE..] == o'[HMAC_BLOCKSIZE..] == Sha256(Inner(key', text'));
      var i, i' := Inner(key, text), Inner(key', text');
      if i == i' {
        assert text == i[HMAC_BLOCKSIZE..] == i'[HMAC_BLOCKSIZE..] == text';
      }
    }
  }

  /** Two keys are the same if their masked forms stand at the front of the same string. */
  lemma XorAllDetermines(k: seq<Byte>, k': seq<Byte>, b: Byte, s: seq<Byte>, s': seq<Byte>)
    requires |k| == |k'| <= |s| && s == s' && s[..|k|] == XorAll(k, b) && s'[..|k|] == XorAll(k', b)
    ensures k == k'
  {
    hide Xor;
    forall i | 0 <= i < |k|
      ensures k[i] == k'[i]
    {
      XorTwice(k[i], b);
      XorTwice(k'[i], b);
      assert XorAll(k, b)[i] == XorAll(k', b)[i];
    }
  }

  /** Under one key the two inputs of the hash differ, whatever the texts are: in their very first byte. */
  lemma PadsDiffer(key: seq<Byte>, text: seq<Byte>, text': seq<Byte>)
    ensures Inner(key, text)[0] != Outer(key, text')[0]
  {
    hide Xor, Sha256, BlockKey;
    var b := BlockKey(key)[0];
    XorCommutes(b, 0x36);
    XorCommutes(b, 0x5C);
    XorTwice(0x36, b);
    XorTwice(0x5C, b);
    assert Inner(key, text)[0] == Xor(b, 0x36) && Outer(key, text')[0] == Xor(b, 0x5C);
  }

  /** The second mask turns the inner pad into the outer one. */
  lemma PadChanges(k: seq<Byte>)
    ensures XorAll(XorAll(k, 0x36), 0x6A) == XorAll(k, 0x5C)
  {
    hide Xor;
    Masks();
    forall i | 0 <= i < |k|
      ensures XorAll(XorAll(k, 0x36), 0x6A)[i] == XorAll(k, 0x5C)[i]
    {
      XorAssoc(k[i], 0x36, 0x6A);
    }
  }

  lemma Masks()
    ensures Xor(0x36, 0x6A) == 0x5C
  {
    assert XorBits(0, 0, 1) == 0;
    assert XorBits(0, 1, 2) == 1;
    assert XorBits(1, 3, 3) == 2;
    assert XorBits(3, 6, 4) == 5;
    assert XorBits(6, 13, 5) == 11;
    assert XorBits(13, 26, 6) == 23;
    assert XorBits(27, 53, 7) == 46;
  }

  const LIMIT: nat := 0x1000_0000_0000_0000   // 2^60 bytes, far below the hash's own limit

  class Context {
    const pad: array<Byte>
    const data: Code.Context
    ghost var key: seq<Byte>
    ghost var text: seq<Byte>

    ghost predicate Shaped()
      reads this, data
    {
      && pad.Length == HMAC_BLOCKSIZE && data.Shaped()
      && pad != data.buffer
    }

    ghost predicate Valid()
      reads this, pad, data, data.state, data.buffer
    {
      && Shaped() && data.Valid()
      && |text| < LIMIT
      && pad[..] == XorAll(BlockKey(key), 0x5C)
      && data.msg == XorAll(BlockKey(key), 0x36) + text
    }

    /** dtls_hmac_context_new; the caller initialises it next. */
    constructor ()
      ensures Shaped() && fresh(pad) && fresh(data) && fresh(data.state) && fresh(data.buffer)
    {
      pad := new Byte[64](_ => 0);
      data := new Code.Context();
    }

    method MaskPad(b: Byte)
      requires Shaped()
      modifies pad
      ensures pad[..] == XorAll(old(pad[..]), b)
    {
      hide Xor;
      for i := 0 to HMAC_BLOCKSIZE
        invariant forall j :: 0 <= j < i ==> pad[j] == Xor(old(pad[j]), b)
        invariant forall j :: i <= j < HMAC_BLOCKSIZE ==> pad[j] == old(pad[j])
      {
        pad[i] := Xor(pad[i], b);
      }
    }

    method Init(k: seq<Byte>)
      requires Shaped() && |k| < LIMIT
      modifies this, pad, data, data.state, data.buffer
      ensures Valid() && key == k && text == []
    {
      hide Sha256, XorAll, Code.Context.Valid;
      LoadKey(k);
      ghost var k0 := BlockKey(k);
      MaskPad(0x36);
      data.Init();
      data.Update(pad[..]);
      PadChanges(k0);
      MaskPad(0x6A);
      key, text := k, [];
      assert data.msg == XorAll(k0, 0x36) + [];
    }

    method LoadKey(k: seq<Byte>)
      requires Shaped() && |k| < LIMIT
      modifies pad, data, data.state, data.buffer
      ensures pad[..] == BlockKey(k) && Shaped()
    {
      hide Sha256, Code.Context.Valid;
      forall i | 0 <= i < HMAC_BLOCKSIZE {
        pad[i] := 0;
      }
      if |k| > HMAC_BLOCKSIZE {
        data.Init();
        data.Update(k);
        assert data.msg == k;
        data.Final(pad);
        assert pad[..] == pad[..32] + pad[32..];
      } else {
        forall i | 0 <= i < |k| {
          pad[i] := k[i];
        }
      }
    }

    method Update(input: seq<Byte>)
      requires Valid() && |text| + |input| < LIMIT
      modifies this, data, data.state, data.buffer
      ensures Valid() && text == old(text) + input && key == old(key)
    {
      hide Code.Context.Valid, XorAll, BlockKey, Sha256;
      ghost var front := XorAll(BlockKey(key), 0x36);
      data.Update(input);
      assert front + text + input == front + (text + input);
      text := text + input;
    }

    method Finalize(result: array<Byte>)
      requires Valid() && result.Length == DIGEST_LENGTH && result != data.buffer && result != pad
      modifies data, data.state, data.buffer, result
      ensures Shaped() && result[..] == Mac(key, text)
    {
      hide Code.Context.Valid, XorAll, Sha256, BlockKey;
      var buf := new Byte[32];
      data.Final(buf);
      assert buf[..32] == buf[..];
      data.Init();
      data.Update(pad[..]);
      data.Update(buf[..]);
      assert data.msg == [] + XorAll(BlockKey(key), 0x5C) + buf[..] == XorAll(BlockKey(key), 0x5C) + buf[..];
      data.Final(result);
      assert result[..32] == result[..];
    }
  }
}
