/** dtls.c: no two encrypted records share a nonce. */
module NonceUse {
  import Arith
  import opened Numerals
  import opened Basics
  import opened Bytes
  import opened Blocks
  import opened CcmSpec
  import opened CcmLaws
  import opened PeerState
  import opened RecordSpec
  import PeerRun

  lemma FieldSizes()
    ensures Pow(256, 2) == 0x1_0000 && Pow(256, 6) == PeerRun.SEQUENCE_LIMIT
  {
    assert Pow(256, 1) == 256;
    PowAdd(256, 2, 2);
    PowAdd(256, 4, 2);
  }

  /** The eight bytes of a record number in a header, which are the explicit part of the nonce. */
  function NumberBytes(n: PeerRun.Number): (b: seq<Byte>)
    ensures |b| == 8
  {
    BigEndian(n.epoch, 2) + BigEndian(n.seqno, 6)
  }

  lemma NumberDetermines(n: PeerRun.Number, n': PeerRun.Number)
    requires NumberBytes(n) == NumberBytes(n')
    ensures n == n'
  {
    hide BigEndian, Pow;
    FieldSizes();
    assert NumberBytes(n)[..2] == BigEndian(n.epoch, 2) && NumberBytes(n')[..2] == BigEndian(n'.epoch, 2);
    assert NumberBytes(n)[2..] == BigEndian(n.seqno, 6) && NumberBytes(n')[2..] == BigEndian(n'.seqno, 6);
    BigEndianDetermines(n.epoch, n'.epoch, 2);
    BigEndianDetermines(n.seqno, n'.seqno, 6);
  }

  lemma {:induction false} LowBytesOnly(n: nat, k: nat)
    ensures Pow(256, k) > 0 && BigEndian(n % Pow(256, k), k) == BigEndian(n, k)
  {
    if k == 0 {
      PowZero(256);
    } else {
      hide Pow;
      var p := Pow(256, k - 1);
      PowStep(256, k - 1);
      LowBytesOnly(n / 256, k - 1);
      LowByte(n, p);
    }
  }

  lemma LowByte(n: nat, p: nat)
    requires p > 0
    ensures n % (256 * p) % 256 == n % 256 && n % (256 * p) / 256 == n / 256 % p
  {
    var h := n / 256;
    assert n == (h / p) * (256 * p) + (n % 256 + 256 * (h % p)) by {
      assert h == (h / p) * p + h % p;
      assert (h / p) * (256 * p) == 256 * ((h / p) * p);
    }
    LowByteUnique(n, 256 * p, h / p, n % 256 + 256 * (h % p));
  }

  lemma LowByteUnique(n: nat, d: nat, q: nat, r: nat)
    requires d > 0 && n == q * d + r && r < d
    ensures n % d == r
  {
    Arith.DivModUnique(n, d, q, r);
  }

  /** The number under which a record is made. */
  function NumberOf(p: Params): PeerRun.Number {
    PeerRun.Number(p.epoch, p.rseq % PeerRun.SEQUENCE_LIMIT)
  }

  lemma HeaderNumber(ctype: Byte, p: Params, len: nat)
    ensures Header(ctype, p.epoch, p.rseq, len)[3..11] == NumberBytes(NumberOf(p))
  {
    hide BigEndian, Pow;
    FieldSizes();
    LowBytesOnly(p.rseq, 6);
    var h := Header(ctype, p.epoch, p.rseq, len);
    assert h[3..5] == BigEndian(p.epoch, 2) && h[5..11] == BigEndian(p.rseq, 6);
    assert h[3..11] == h[3..5] + h[5..11];
  }

  /** The explicit nonce in an encrypted record is its number. */
  lemma RecordCarriesNumber(aes: KeyedCipher, role: Role, p: Params, ctype: Byte, payload: seq<Byte>)
    requires p.cipher != NULL_CIPHER
    ensures RecordBytes(aes, role, Some(p), ctype, payload)[13..21] == NumberBytes(NumberOf(p))
    ensures RecordBytes(aes, role, Some(p), ctype, payload)[3..11] == NumberBytes(NumberOf(p))
  {
    hide Header, SealWith, NumberBytes;
    HeaderNumber(ctype, p, |payload| + 16);
    var h := Header(ctype, p.epoch, p.rseq, |payload| + 16);
    var r := RecordBytes(aes, role, Some(p), ctype, payload);
    assert r[..13] == h && r[13..21] == h[3..11];
    assert r[3..11] == r[..13][3..11];
  }

  /** Of the sixteen bytes that are passed, the twelve that count determine salt and explicit part. */
  lemma NonceDetermines(iv: seq<Byte>, x: seq<Byte>, iv': seq<Byte>, x': seq<Byte>)
    requires |iv| == |iv'| == 4 && |x| == |x'| == 8
    requires NonceOf(iv, x)[..15 - LENGTH_BYTES] == NonceOf(iv', x')[..15 - LENGTH_BYTES]
    ensures iv == iv' && x == x'
  {
    var n, n' := NonceOf(iv, x)[..12], NonceOf(iv', x')[..12];
    assert n[..4] == iv && n'[..4] == iv' && n[4..] == x && n'[4..] == x';
  }

  /** The additional data determine the number of the record, its type and its length. */
  lemma ADataDetermines(ctype: Byte, p: Params, len: nat, n: nat, ctype': Byte, p': Params, len': nat, n': nat)
    requires n < 0x1_0000 && n' < 0x1_0000
    requires AData(Header(ctype, p.epoch, p.rseq, len), n) == AData(Header(ctype', p'.epoch, p'.rseq, len'), n')
    ensures NumberOf(p) == NumberOf(p') && ctype == ctype' && n == n'
  {
    hide BigEndian, Pow, NumberBytes;
    FieldSizes();
    var h, h' := Header(ctype, p.epoch, p.rseq, len), Header(ctype', p'.epoch, p'.rseq, len');
    var a, a' := AData(h, n), AData(h', n');
    assert a[..8] == h[3..11] && a'[..8] == h'[3..11];
    assert a[8] == h[..3][0] == ctype && a'[8] == h'[..3][0] == ctype';
    assert a[11..] == BigEndian(n, 2) && a'[11..] == BigEndian(n', 2);
    HeaderNumber(ctype, p, len);
    HeaderNumber(ctype', p', len');
    NumberDetermines(NumberOf(p), NumberOf(p'));
    BigEndianDetermines(n, n', 2);
  }

  /** Over every run whose counters do not wrap, the nonces of any two encrypted records differ,
      whatever the salt. */
  lemma NoNonceTwice(s: PeerRun.State, events: seq<PeerRun.Event>, iv: seq<Byte>, i: nat, j: nat)
    requires PeerRun.Init(s) && (forall k :: 0 <= k < |events| ==> PeerRun.NoWrap(PeerRun.Run(s, events[..k]))) && |iv| == 4
    requires i < j < |PeerRun.Run(s, events).log|
    ensures var log := PeerRun.Run(s, events).log;
      NonceOf(iv, NumberBytes(log[i]))[..12] != NonceOf(iv, NumberBytes(log[j]))[..12]
  {
    hide PeerRun.Run, PeerRun.NoWrap, PeerRun.Inv, NumberBytes, NonceOf;
    PeerRun.RunIsSafe(s, events);
    var log := PeerRun.Run(s, events).log;
    assert log[i] != log[j];
    if NonceOf(iv, NumberBytes(log[i]))[..12] == NonceOf(iv, NumberBytes(log[j]))[..12] {
      NonceDetermines(iv, NumberBytes(log[i]), iv, NumberBytes(log[j]));
      NumberDetermines(log[i], log[j]);
    }
  }

  /** The two keys and the two salts, client before server, are the whole key block. */
  lemma KeyBlockParts(kb: KeyBlock)
    ensures LocalKey(kb, Client) + LocalKey(kb, Server) + LocalIv(kb, Client) + LocalIv(kb, Server) == kb
  {
  }
}
