/** The bytes of a DTLS record, and what the other end makes of them. */
module RecordSpec {
  import opened Numerals
  import opened Basics
  import opened Bytes
  import opened Blocks
  import opened CcmSpec
  import opened PeerState

  /** AES: a block cipher for every key. */
  type KeyedCipher = seq<Byte> -> BlockCipher

  const HEADER_LENGTH := 13
  const TAG_LENGTH := 8      // M of dtls_ccm_encrypt
  const LENGTH_BYTES := 3    // L: 15 less the nonce's 12 bytes

  function Header(ctype: Byte, epoch: UInt16, rseq: nat, len: nat): (h: seq<Byte>)
    ensures |h| == HEADER_LENGTH
  {
    [ctype, 0xFE, 0xFD] + BigEndian(epoch, 2) + BigEndian(rseq, 6) + BigEndian(len, 2)
  }

  /** The salt from the key block, then epoch and sequence number. */
  function NonceOf(iv: seq<Byte>, explicit: seq<Byte>): Nonce
    requires |iv| == 4 && |explicit| == 8
  {
    iv + explicit + Zeros(4)
  }

  /** Section 6.2.3.3 of RFC 5246: sequence number, type, version and length. */
  function AData(header: seq<Byte>, len: nat): (a: seq<Byte>)
    requires |header| >= HEADER_LENGTH
    ensures |a| == 13
  {
    header[3..11] + header[..3] + BigEndian(len, 2)
  }

  lemma CcmFits()
    ensures ValidParams(TAG_LENGTH, LENGTH_BYTES) && 13 < Pow(256, 8) && Pow(256, 3) == 0x100_0000
  {
    assert Pow(256, 3) == 0x100_0000 by { assert Pow(256, 1) == 256; }
    PowMono(256, 3, 8);
  }

  function SealWith(E: BlockCipher, iv: seq<Byte>, explicit: seq<Byte>, aad: seq<Byte>, m: seq<Byte>): (c: seq<Byte>)
    requires |iv| == 4 && |explicit| == 8 && |aad| == 13
    ensures |c| == |m| + TAG_LENGTH
  {
    CcmFits();
    Seal(E, TAG_LENGTH, LENGTH_BYTES, NonceOf(iv, explicit), aad, m)
  }

  function OpenWith(E: BlockCipher, iv: seq<Byte>, explicit: seq<Byte>, aad: seq<Byte>, c: seq<Byte>): Option<seq<Byte>>
    requires |iv| == 4 && |explicit| == 8 && |aad| == 13
  {
    CcmFits();
    Open(E, TAG_LENGTH, LENGTH_BYTES, NonceOf(iv, explicit), aad, c)
  }

  /** The fragment of a protected record under a header. */
  function Protect(E: BlockCipher, iv: seq<Byte>, h: seq<Byte>, payload: seq<Byte>): (c: seq<Byte>)
    requires |iv| == 4 && |h| == HEADER_LENGTH
    ensures |c| == |payload| + 16
  {
    h[3..11] + SealWith(E, iv, h[3..11], AData(h, |payload|), payload)
  }

  /** What dtls_prepare_record is to write for a payload. */
  function RecordBytes(aes: KeyedCipher, role: Role, p: Option<Params>, ctype: Byte, payload: seq<Byte>): (r: seq<Byte>)
    ensures |r| == HEADER_LENGTH + |payload| + if p.Some? && p.value.cipher != NULL_CIPHER then 16 else 0
  {
    if p.None? then Header(ctype, 0, 0, |payload|) + payload
    else if p.value.cipher == NULL_CIPHER then Header(ctype, p.value.epoch, p.value.rseq, |payload|) + payload
    else
      var h := Header(ctype, p.value.epoch, p.value.rseq, |payload| + 16);
      h + Protect(aes(LocalKey(p.value.keyBlock, role)), LocalIv(p.value.keyBlock, role), h, payload)
  }

  /** What decrypt_verify makes of a packet. */
  function OpenPacket(aes: KeyedCipher, role: Role, p: Option<Params>, packet: seq<Byte>): Option<seq<Byte>>
    requires |packet| >= HEADER_LENGTH
  {
    if p.None? then None
    else if p.value.cipher == NULL_CIPHER then Some(packet[HEADER_LENGTH..])
    else if |packet| < HEADER_LENGTH + 16 then None
    else
      OpenWith(aes(RemoteKey(p.value.keyBlock, role)), RemoteIv(p.value.keyBlock, role), packet[13..21],
               AData(packet, |packet| - 29), packet[21..])
  }

  /** dtls_uint16_to_int. */
  function Read16(hi: Byte, lo: Byte): (n: UInt16)
    ensures n == 256 * (hi as int) + lo
  {
    var h: int := hi;
    256 * h + lo
  }

  /** dtls_get_epoch of the record header. */
  function EpochOf(packet: seq<Byte>): UInt16
    requires |packet| >= HEADER_LENGTH
  {
    Read16(packet[3], packet[4])
  }

  /** is_record: the length of the record at the front, or 0. */
  function RecordLength(msg: seq<Byte>): (n: nat)
    ensures n <= |msg|
  {
    if |msg| >= HEADER_LENGTH && msg[1] == 0xFE && msg[2] == 0xFD
       && HEADER_LENGTH + Read16(msg[11], msg[12]) <= |msg|
    then HEADER_LENGTH + Read16(msg[11], msg[12])
    else 0
  }

  // ---- the other end recovers the payload ----

  lemma TwoBytes(n: nat)
    requires n < 0x1_0000
    ensures BigEndian(n, 2) == [n / 256, n % 256]
  {
    assert BigEndian(n, 2) == BigEndian(n / 256, 1) + [n % 256];
    assert BigEndian(n / 256, 1) == BigEndian(n / 256 / 256, 0) + [n / 256 % 256];
  }

  /** The header survives: the record is cut out of a datagram at its own length, and
      its epoch selects the parameters it was made under. */
  lemma HeaderReadBack(aes: KeyedCipher, role: Role, p: Option<Params>, ctype: Byte, payload: seq<Byte>, rest: seq<Byte>)
    requires |payload| + 16 < 0x1_0000
    ensures var r := RecordBytes(aes, role, p, ctype, payload);
      && RecordLength(r + rest) == |r|
      && r[0] == ctype
      && EpochOf(r) == if p.Some? then p.value.epoch else 0
  {
    hide BigEndian, Protect;
    var r := RecordBytes(aes, role, p, ctype, payload);
    TwoBytes(|r| - HEADER_LENGTH);
    TwoBytes(if p.Some? then p.value.epoch else 0);
    assert r[11..13] == BigEndian(|r| - HEADER_LENGTH, 2);
    assert r[3..5] == BigEndian(if p.Some? then p.value.epoch else 0, 2);
    assert r[11] == r[11..13][0] && r[12] == r[11..13][1] && r[3] == r[3..5][0] && r[4] == r[3..5][1];
  }

  /** A record made under one role is opened under the other role with the same key block:
      the payload comes back byte for byte, whatever the type, epoch and sequence number. */
  lemma OpenUndoesPrepare(aes: KeyedCipher, role: Role, p: Params, q: Params, ctype: Byte, payload: seq<Byte>)
    requires q.keyBlock == p.keyBlock && (q.cipher == NULL_CIPHER <==> p.cipher == NULL_CIPHER)
    ensures OpenPacket(aes, Other(role), Some(q), RecordBytes(aes, role, Some(p), ctype, payload)) == Some(payload)
  {
    hide Header, SealWith, OpenWith;
    var r := RecordBytes(aes, role, Some(p), ctype, payload);
    if p.cipher == NULL_CIPHER {
      assert r[HEADER_LENGTH..] == payload;
    } else {
      var h := Header(ctype, p.epoch, p.rseq, |payload| + 16);
      var E, iv := aes(LocalKey(p.keyBlock, role)), LocalIv(p.keyBlock, role);
      var c := SealWith(E, iv, h[3..11], AData(h, |payload|), payload);
      assert r == h + h[3..11] + c;
      assert r[13..21] == h[3..11] && r[21..] == c;
      assert AData(r, |r| - 29) == AData(h, |payload|) by {
        assert r[3..11] == h[3..11] && r[..3] == h[..3];
      }
      assert Other(Other(role)) == role;
      OpenIffSealWith(E, iv, h[3..11], AData(h, |payload|), payload, c);
    }
  }

  lemma OpenIffSealWith(E: BlockCipher, iv: seq<Byte>, explicit: seq<Byte>, aad: seq<Byte>, m: seq<Byte>, c: seq<Byte>)
    requires |iv| == 4 && |explicit| == 8 && |aad| == 13
    ensures OpenWith(E, iv, explicit, aad, c) == Some(m) <==> c == SealWith(E, iv, explicit, aad, m)
  {
    hide Open, Seal, Pow;
    CcmFits();
    OpenIffSealed(E, TAG_LENGTH, LENGTH_BYTES, NonceOf(iv, explicit), aad, m, c);
  }

  /** A protected packet opens to m exactly when its fragment is its explicit nonce and the
      sealing of m, under the sender's key, that nonce and the packet's own header. */
  lemma OpenOnlySealed(aes: KeyedCipher, role: Role, q: Params, packet: seq<Byte>, m: seq<Byte>)
    requires q.cipher != NULL_CIPHER && |packet| >= HEADER_LENGTH + 16
    ensures OpenPacket(aes, role, Some(q), packet) == Some(m) <==>
      (|packet| == |m| + 29
       && packet[21..] == SealWith(aes(LocalKey(q.keyBlock, Other(role))), LocalIv(q.keyBlock, Other(role)),
                                   packet[13..21], AData(packet, |m|), m))
  {
    hide SealWith, OpenWith, AData;
    OpenIffSealWith(aes(RemoteKey(q.keyBlock, role)), RemoteIv(q.keyBlock, role), packet[13..21],
                    AData(packet, |packet| - 29), m, packet[21..]);
  }
}
