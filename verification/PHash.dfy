/** crypto.c: the pseudo-random function of TLS 1.2. */
module PHash {
  import opened Bytes
  import opened Sha256Spec
  import opened Hmac
  import Code = Sha256Code

  // ---- section 5 of RFC 5246 ----

  /** A(0) is the seed, A(i) the MAC of A(i-1). */
  function A(secret: seq<Byte>, seed: seq<Byte>, i: nat): seq<Byte> {
    if i == 0 then seed else Mac(secret, A(secret, seed, i - 1))
  }

  /** Block i of the stream, counted from 1. */
  function StreamBlock(secret: seq<Byte>, seed: seq<Byte>, i: nat): (b: seq<Byte>)
    ensures |b| == DIGEST_LENGTH
  {
    Mac(secret, A(secret, seed, i) + seed)
  }

  /** A block of the stream determines the seed and the block key of the secret, unless the hash collides. */
  lemma StreamBlockDetermines(secret: seq<Byte>, seed: seq<Byte>, secret': seq<Byte>, seed': seq<Byte>, i: nat)
    requires i > 0 && StreamBlock(secret, seed, i) == StreamBlock(secret', seed', i)
    ensures var t, t' := A(secret, seed, i) + seed, A(secret', seed', i) + seed';
      || (BlockKey(secret) == BlockKey(secret') && A(secret, seed, i) == A(secret', seed', i) && seed == seed')
      || Collide(Outer(secret, t), Outer(secret', t')) || Collide(Inner(secret, t), Inner(secret', t'))
  {
    hide Mac, BlockKey, Collide, Outer, Inner;
    var a, a' := A(secret, seed, i), A(secret', seed', i);
    MacDetermines(secret, a + seed, secret', a' + seed');
    if a + seed == a' + seed' {
      assert a == (a + seed)[..DIGEST_LENGTH] && a' == (a' + seed')[..DIGEST_LENGTH];
      assert seed == (a + seed)[DIGEST_LENGTH..] && seed' == (a' + seed')[DIGEST_LENGTH..];
    }
  }

  function Stream(secret: seq<Byte>, seed: seq<Byte>, n: nat): (s: seq<Byte>)
    ensures |s| == DIGEST_LENGTH * n
  {
    if n == 0 then [] else Stream(secret, seed, n - 1) + StreamBlock(secret, seed, n)
  }

  /** The first len bytes of the stream. */
  function Expand(secret: seq<Byte>, seed: seq<Byte>, len: nat): (s: seq<Byte>)
    ensures |s| == len
  {
    Stream(secret, seed, (len + DIGEST_LENGTH - 1) / DIGEST_LENGTH)[..len]
  }

  /** Reading off more blocks than needed gives the same bytes. */
  lemma {:induction false} StreamPrefix(secret: seq<Byte>, seed: seq<Byte>, m: nat, n: nat, len: nat)
    requires m <= n && len <= DIGEST_LENGTH * m
    ensures Stream(secret, seed, n)[..len] == Stream(secret, seed, m)[..len]
  {
    hide StreamBlock;
    if m < n {
      StreamPrefix(secret, seed, m, n - 1, len);
    }
  }

  /** So a shorter output is the front of a longer one. */
  lemma ExpandIsPrefix(secret: seq<Byte>, seed: seq<Byte>, len: nat, longer: nat)
    requires len <= longer
    ensures Expand(secret, seed, longer)[..len] == Expand(secret, seed, len)
  {
    hide Stream;
    var m, n := (len + DIGEST_LENGTH - 1) / DIGEST_LENGTH, (longer + DIGEST_LENGTH - 1) / DIGEST_LENGTH;
    StreamPrefix(secret, seed, m, n, len);
  }

  /** What is written: i whole blocks, then the front of the next one. */
  lemma ExpandFromBlocks(secret: seq<Byte>, seed: seq<Byte>, i: nat, len: nat)
    requires DIGEST_LENGTH * i <= len <= DIGEST_LENGTH * (i + 1)
    ensures Expand(secret, seed, len)
      == Stream(secret, seed, i) + StreamBlock(secret, seed, i + 1)[..len - DIGEST_LENGTH * i]
  {
    hide Stream, StreamBlock;
    StreamPrefix(secret, seed, (len + DIGEST_LENGTH - 1) / DIGEST_LENGTH, i + 1, len);
    NextBlock(secret, seed, i);
  }

  lemma NextBlock(secret: seq<Byte>, seed: seq<Byte>, i: nat)
    ensures Stream(secret, seed, i + 1) == Stream(secret, seed, i) + StreamBlock(secret, seed, i + 1)
  {
    hide StreamBlock;
  }

  lemma FirstA(secret: seq<Byte>, seed: seq<Byte>)
    ensures A(secret, seed, 0) == seed
  {
  }

  lemma BlockOf(secret: seq<Byte>, seed: seq<Byte>, i: nat)
    ensures StreamBlock(secret, seed, i) == Mac(secret, A(secret, seed, i) + seed)
    ensures A(secret, seed, i + 1) == Mac(secret, A(secret, seed, i))
  {
    hide Mac;
  }

  // ---- dtls_p_hash ----

  const SHORT: nat := 0x100_0000   // no label, random value or key of DTLS is anywhere near this

  /** One HMAC over a prefix and the three parts of the seed; a missing part is empty. */
  method MacSeed(hmac: Hmac.Context, key: seq<Byte>, front: seq<Byte>, prfLabel: seq<Byte>,
                 random1: seq<Byte>, random2: seq<Byte>, result: array<Byte>)
    requires hmac.Shaped() && |key| < SHORT && |front| < SHORT && |prfLabel| < SHORT && |random1| < SHORT && |random2| < SHORT
    requires result.Length == DIGEST_LENGTH && result != hmac.data.buffer && result != hmac.pad
    modifies hmac, hmac.pad, hmac.data, hmac.data.state, hmac.data.buffer, result
    ensures hmac.Shaped() && result[..] == Mac(key, front + (prfLabel + random1 + random2))
  {
    hide Mac, Hmac.Context.Valid;
    hmac.Init(key);
    hmac.Update(front);
    hmac.Update(prfLabel);
    hmac.Update(random1);
    hmac.Update(random2);
    assert hmac.text == front + (prfLabel + random1 + random2);
    hmac.Finalize(result);
  }

  method CopyOut(buf: array<Byte>, at: nat, s: seq<Byte>)
    requires at + |s| <= buf.Length
    modifies buf
    ensures buf[..at + |s|] == old(buf[..at]) + s && buf[at + |s|..] == old(buf[at + |s|..])
  {
    forall i | 0 <= i < |s| {
      buf[at + i] := s[i];
    }
    assert buf[..at + |s|] == old(buf[..at]) + s;
  }

  method DtlsPHash(key: seq<Byte>, prfLabel: seq<Byte>, random1: seq<Byte>, random2: seq<Byte>,
                   buf: array<Byte>, buflen: nat)
    requires |key| < SHORT && |prfLabel| < SHORT && |random1| < SHORT && |random2| < SHORT && buflen <= buf.Length
    modifies buf
    ensures buf[..buflen] == Expand(key, prfLabel + random1 + random2, buflen) && buf[buflen..] == old(buf[buflen..])
  {
    hide Mac, Stream, StreamBlock, Expand, A;
    ghost var seed := prfLabel + random1 + random2;
    var hmacA := new Hmac.Context();
    var hmacP := new Hmac.Context();
    var a, tmp := new Byte[32], new Byte[32];
    BlockOf(key, seed, 0);
    assert A(key, seed, 0) == seed by { FirstA(key, seed); }
    MacSeed(hmacA, key, [], prfLabel, random1, random2, a);
    assert [] + seed == seed;
    var len := 0;
    ghost var i := 0;
    while len + DIGEST_LENGTH < buflen
      invariant len == DIGEST_LENGTH * i <= buflen
      invariant hmacA.Shaped() && hmacP.Shaped()
      invariant fresh(hmacA) && fresh(hmacP) && fresh(hmacA.pad) && fresh(hmacP.pad) && fresh(hmacA.data) && fresh(hmacP.data)
      invariant buf[..len] == Stream(key, seed, i) && a[..] == A(key, seed, i + 1)
      invariant buf[buflen..] == old(buf[buflen..])
    {
      MacSeed(hmacP, key, a[..], prfLabel, random1, random2, tmp);
      BlockOf(key, seed, i + 1);
      CopyOut(buf, len, tmp[..]);
      NextBlock(key, seed, i);
      len := len + DIGEST_LENGTH;
      assert a[..] + ([] + [] + []) == a[..];
      MacSeed(hmacA, key, a[..], [], [], [], a);
      i := i + 1;
    }
    MacSeed(hmacP, key, a[..], prfLabel, random1, random2, tmp);
    BlockOf(key, seed, i + 1);
    CopyOut(buf, len, tmp[..buflen - len]);
    ExpandFromBlocks(key, seed, i, buflen);
  }
}
