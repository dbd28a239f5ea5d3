/** dtls.c: building a record in the send buffer, and opening a received one in place. */
module RecordLayer {
  import opened Numerals
  import opened Basics
  import opened Bytes
  import opened Blocks
  import opened CcmSpec
  import opened CcmCode
  import opened PeerState
  import opened RecordSpec

  const INTERNAL_ERROR: int := -592   // dtls_alert_fatal_create(DTLS_ALERT_INTERNAL_ERROR)

  function Concat(data: seq<seq<Byte>>): seq<Byte> {
    if data == [] then [] else Concat(data[..|data| - 1]) + data[|data| - 1]
  }

  lemma {:induction false} ConcatPrefix(data: seq<seq<Byte>>, i: nat)
    requires i <= |data|
    ensures |Concat(data[..i])| <= |Concat(data)|
  {
    if i < |data| {
      assert data[..|data| - 1][..i] == data[..i];
      ConcatPrefix(data[..|data| - 1], i);
    } else {
      assert data[..i] == data;
    }
  }

  ghost function ValueOf(s: Security?): Option<Params>
    reads s
  {
    if s == null then None else Some(s.Value())
  }

  // ---- dtls_set_record_header ----

  /** Writes a field at the end of what has been written so far. */
  method PutField(a: array<Byte>, at: nat, field: seq<Byte>) returns (end: nat)
    requires at + |field| <= a.Length
    modifies a
    ensures end == at + |field| && a[..end] == old(a[..at]) + field && a[end..] == old(a[end..])
  {
    ghost var front := a[..at];
    Put(a, at, field);
    end := at + |field|;
    assert a[..at] == front;
    assert a[..end] == a[..at] + a[at..end];
  }

  method SetRecordHeader(ctype: Byte, security: Security?, buf: array<Byte>) returns (at: nat)
    requires buf.Length >= HEADER_LENGTH
    modifies buf, if security == null then {} else {security}
    ensures at == HEADER_LENGTH
    ensures security == null ==> buf[..at] == Header(ctype, 0, 0, 0)
    ensures security != null ==> buf[..at] == Header(ctype, old(security.epoch), old(security.rseq), 0)
    ensures security != null ==> security.Value() == old(security.Value()).(rseq := NextNumber(old(security.rseq)))
  {
    hide BigEndian;
    BigEndianZeros();
    at := PutField(buf, 0, [ctype]);
    at := PutField(buf, at, [0xFE, 0xFD]);
    if security != null {
      at := PutField(buf, at, BigEndian(security.epoch, 2));
      at := PutField(buf, at, BigEndian(security.rseq, 6));
      security.rseq := NextNumber(security.rseq);
    } else {
      at := PutField(buf, at, Zeros(2) + Zeros(6));
    }
    at := PutField(buf, at, Zeros(2));
  }

  lemma BigEndianZeros()
    ensures BigEndian(0, 2) == Zeros(2) && BigEndian(0, 6) == Zeros(6)
  {
    BigEndianZero(2);
    BigEndianZero(6);
  }

  // ---- dtls_prepare_record ----

  /** When the buffer size is accepted; without any payload only the header is checked. */
  predicate Fits(encrypted: bool, data: seq<seq<Byte>>, rlen: nat) {
    rlen >= HEADER_LENGTH && (data == [] || rlen >= HEADER_LENGTH + (if encrypted then 8 else 0) + |Concat(data)|)
  }

  /** The size check leaves out the tag, and comes after the explicit nonce has been written.
      All writes stay inside a buffer of the given size in every other case. */
  predicate WritesInside(encrypted: bool, data: seq<seq<Byte>>, rlen: nat, size: nat) {
    !encrypted || rlen < HEADER_LENGTH ||
    (size >= HEADER_LENGTH + 8 && (Fits(true, data, rlen) ==> size >= HEADER_LENGTH + 16 + |Concat(data)|))
  }

  /** For a buffer of the size that is passed along, this is a condition on the payload's length. */
  lemma InsideIff(data: seq<seq<Byte>>, rlen: nat)
    ensures WritesInside(true, data, rlen, rlen) <==>
      rlen < 13 || rlen >= 29 + |Concat(data)| || 21 <= rlen < 21 + |Concat(data)|
    ensures rlen >= 29 + |Concat(data)| ==> Fits(true, data, rlen)
  {
  }

  const SENDBUF_LENGTH := 1400   // DTLS_MAX_BUF

  /** The program's buffer has 1400 bytes; payloads of these lengths are accepted and do not fit. */
  lemma NotInside(payload: seq<Byte>)
    ensures Fits(true, [payload], SENDBUF_LENGTH) && !WritesInside(true, [payload], SENDBUF_LENGTH, SENDBUF_LENGTH)
      <==> 1372 <= |payload| <= 1379
  {
    assert Concat([payload]) == Concat([]) + payload == payload;
  }

  /** What comes of building a record: its length, an alert, or, where the program writes
      beyond its buffer and has no defined meaning, nothing at all. */
  datatype Prepared = Ready(len: nat) | Refused(err: int) | Undefined

  /** Copies the payloads one after the other; fails as soon as one does not fit. */
  method CopyPayload(data: seq<seq<Byte>>, sendbuf: array<Byte>, from: nat, base: nat, rlen: nat)
    returns (ok: bool, res: nat)
    requires from == HEADER_LENGTH + base && from <= sendbuf.Length && rlen <= sendbuf.Length
    modifies sendbuf
    ensures ok <==> (data == [] || rlen >= from + |Concat(data)|)
    ensures ok ==> res == base + |Concat(data)| && from + |Concat(data)| <= sendbuf.Length
    ensures ok ==> (data == [] && Concat(data) == []) || from + |Concat(data)| <= rlen
    ensures ok ==> sendbuf[..from] == old(sendbuf[..from]) && sendbuf[from..from + |Concat(data)|] == Concat(data)
  {
    ghost var front := sendbuf[..from];
    res := base;
    var p := from;
    for i := 0 to |data|
      invariant res == base + |Concat(data[..i])| && p == HEADER_LENGTH + res && p <= sendbuf.Length
      invariant i > 0 ==> p <= rlen
      invariant sendbuf[..p] == front + Concat(data[..i])
    {
      assert data[..i + 1][..i] == data[..i];
      if rlen < res + HEADER_LENGTH + |data[i]| {
        ConcatPrefix(data, i + 1);
        return false, res;
      }
      p := PutField(sendbuf, p, data[i]);
      assert front + Concat(data[..i]) + data[i] == front + Concat(data[..i + 1]);
      res := res + |data[i]|;
    }
    assert data[..|data|] == data;
    assert sendbuf[..p][..from] == front && sendbuf[..p][from..] == Concat(data);
    ok := true;
  }

  method PrepareRecord(aes: KeyedCipher, role: Role, security: Security?, ctype: Byte, data: seq<seq<Byte>>,
                       sendbuf: array<Byte>, rlen: nat)
    returns (outcome: Prepared)
    requires rlen <= sendbuf.Length && rlen < 0x100_0000
    modifies sendbuf, if security == null then {} else {security}
    ensures var encrypted := security != null && security.cipher != NULL_CIPHER;
      && (outcome.Undefined? <==> !WritesInside(encrypted, data, rlen, sendbuf.Length))
      && (outcome.Ready? <==> WritesInside(encrypted, data, rlen, sendbuf.Length) && Fits(encrypted, data, rlen))
    ensures outcome.Refused? ==> outcome.err == INTERNAL_ERROR
    ensures outcome.Ready? ==> outcome.len <= sendbuf.Length
    ensures outcome.Ready? ==> sendbuf[..outcome.len] == RecordBytes(aes, role, old(ValueOf(security)), ctype, Concat(data))
    ensures security != null && rlen < HEADER_LENGTH ==> security.Value() == old(security.Value())
    ensures security != null && rlen >= HEADER_LENGTH ==>
              security.Value() == old(security.Value()).(rseq := NextNumber(old(security.rseq)))
  {
    hide BigEndian, Concat, Header, RecordBytes, Protect, LocalKey, LocalIv;
    if rlen < HEADER_LENGTH {
      return Refused(INTERNAL_ERROR);
    }
    ghost var p := ValueOf(security);
    var at := SetRecordHeader(ctype, security, sendbuf);
    ghost var h0 := sendbuf[..13];
    var ok, res, defined := false, 0, true;
    if security == null || security.cipher == NULL_CIPHER {
      ok, res := CopyPayload(data, sendbuf, at, 0, rlen);
    } else {
      defined, ok, res := ProtectPayload(aes, role, security, data, sendbuf, at, rlen);
    }
    if !defined {
      return Undefined;
    }
    if !ok {
      return Refused(INTERNAL_ERROR);
    }
    var outLen := HEADER_LENGTH + res;
    ghost var body := sendbuf[13..outLen];
    SetLength(sendbuf, res);
    WholeRecord(aes, role, p, ctype, Concat(data), h0, res, body);
    outcome := Ready(outLen);
  }

  /** The branch with a cipher: explicit nonce, payload, and their protection in place. It is
      given up where the next write would leave the buffer. */
  method ProtectPayload(aes: KeyedCipher, role: Role, security: Security, data: seq<seq<Byte>>,
                        sendbuf: array<Byte>, at: nat, rlen: nat)
    returns (defined: bool, ok: bool, res: nat)
    requires at == HEADER_LENGTH && HEADER_LENGTH <= rlen <= sendbuf.Length && rlen < 0x100_0000
    modifies sendbuf
    ensures defined <==> WritesInside(true, data, rlen, sendbuf.Length)
    ensures defined ==> (ok <==> Fits(true, data, rlen))
    ensures defined && ok ==> res == |Concat(data)| + 16 && 13 + res <= sendbuf.Length
    ensures defined && ok ==> sendbuf[..13] == old(sendbuf[..13])
    ensures defined && ok ==> var kb := security.keyBlock;
      sendbuf[13..13 + res] == Protect(aes(LocalKey(kb, role)), LocalIv(kb, role), sendbuf[..13], Concat(data))
  {
    hide BigEndian, Concat, AData, SealWith;
    if sendbuf.Length < at + 8 {
      return false, false, 0;
    }
    ghost var h := sendbuf[..13];
    var p := PutField(sendbuf, at, sendbuf[3..11]);
    ghost var front := sendbuf[..21];
    assert front == h + h[3..11];
    assert front[13..21] == h[3..11];
    ok, res := CopyPayload(data, sendbuf, p, 8, rlen);
    if !ok {
      return true, false, 0;
    }
    if sendbuf.Length < HEADER_LENGTH + res + 8 {
      return false, false, 0;
    }
    assert sendbuf[..13] == front[..13] && sendbuf[13..21] == front[13..21];
    res := SealFragment(aes, role, security, sendbuf, res - 8);
    res := res + 8;
    assert sendbuf[..13] == front[..13] && sendbuf[13..21] == front[13..21] by { assert sendbuf[..21] == front; }
    assert sendbuf[13..13 + res] == sendbuf[13..21] + sendbuf[21..13 + res];
    defined := true;
  }

  /** The length field of the finished record. */
  method SetLength(sendbuf: array<Byte>, res: nat)
    requires 13 + res <= sendbuf.Length
    modifies sendbuf
    ensures sendbuf[..13 + res] == old(sendbuf[..11]) + BigEndian(res, 2) + old(sendbuf[13..13 + res])
  {
    hide BigEndian;
    ghost var front, body := sendbuf[..11], sendbuf[13..13 + res];
    Put(sendbuf, 11, BigEndian(res, 2));
    assert sendbuf[..11] == front && sendbuf[13..13 + res] == body;
    assert sendbuf[..13 + res] == sendbuf[..11] + sendbuf[11..13] + sendbuf[13..13 + res];
  }

  /** dtls_encrypt on the payload behind header and explicit nonce. */
  method SealFragment(aes: KeyedCipher, role: Role, security: Security, sendbuf: array<Byte>, len: nat)
    returns (n: nat)
    requires len < 0x100_0000 && 21 + len + 8 <= sendbuf.Length
    modifies sendbuf
    ensures n == len + 8 && sendbuf[..21] == old(sendbuf[..21])
    ensures sendbuf[21..21 + len + 8] ==
      SealWith(aes(LocalKey(security.keyBlock, role)), LocalIv(security.keyBlock, role), old(sendbuf[13..21]),
               AData(old(sendbuf[..13]), len), old(sendbuf[21..21 + len]))
  {
    hide Pow, Seal, AData, NonceOf, ValidParams;
    CcmFits();
    var nonce := NonceOf(LocalIv(security.keyBlock, role), sendbuf[13..21]);
    var aad := AData(sendbuf[..13], len);
    ghost var front := sendbuf[..21];
    n := EncryptMessage(aes(LocalKey(security.keyBlock, role)), TAG_LENGTH, LENGTH_BYTES, nonce, sendbuf, 21, len, aad);
  }

  lemma WholeRecord(aes: KeyedCipher, role: Role, p: Option<Params>, ctype: Byte, payload: seq<Byte>,
                    h0: seq<Byte>, res: nat, body: seq<Byte>)
    requires h0 == if p.None? then Header(ctype, 0, 0, 0) else Header(ctype, p.value.epoch, p.value.rseq, 0)
    requires p.None? || p.value.cipher == NULL_CIPHER ==> res == |payload| && body == payload
    requires p.Some? && p.value.cipher != NULL_CIPHER ==>
      res == |payload| + 16 && body == Protect(aes(LocalKey(p.value.keyBlock, role)), LocalIv(p.value.keyBlock, role), h0, payload)
    ensures h0[..11] + BigEndian(res, 2) + body == RecordBytes(aes, role, p, ctype, payload)
  {
    hide BigEndian, SealWith;
    var e, n: nat := if p.None? then 0 else p.value.epoch, if p.None? then 0 else p.value.rseq;
    var h := Header(ctype, e, n, res);
    assert h[..11] == h0[..11] && h == h0[..11] + BigEndian(res, 2);
    assert h[3..11] == h0[3..11] && h[..3] == h0[..3];
  }

  // ---- decrypt_verify ----

  /** Opens a received record in place. The result is the length of the payload and where it
      starts, or -1; opening a protected record also drops the parameters of the old epoch. */
  method DecryptVerify(aes: KeyedCipher, peer: Peer, packet: array<Byte>, length: nat)
    returns (clen: int, cleartext: nat)
    requires HEADER_LENGTH <= length <= packet.Length && length < 0x100_0000
    modifies packet, peer`params1
    ensures var p := old(ValueOf(peer.ParamsEpoch(EpochOf(packet[..length]))));
      var d := OpenPacket(aes, peer.role, p, old(packet[..length]));
      && (d.Some? ==> clen == |d.value| && cleartext + |d.value| <= length && packet[cleartext..cleartext + |d.value|] == d.value)
      && (d.None? ==> clen == -1)
      && (if d.Some? && p.value.cipher != NULL_CIPHER then peer.params1 == old(AfterFreeOther(peer)) else peer.params1 == old(peer.params1))
    ensures packet[..HEADER_LENGTH] == old(packet[..HEADER_LENGTH]) && packet[length..] == old(packet[length..])
  {
    hide OpenPacket, OpenWith, EpochOf;
    ghost var all := packet[..length];
    EarlyOutcome(aes, peer.role, ValueOf(peer.ParamsEpoch(EpochOf(all))), all);
    var security := peer.ParamsEpoch(EpochOf(packet[..length]));
    cleartext := HEADER_LENGTH;
    clen := length - HEADER_LENGTH;
    if security == null {
      return -1, cleartext;
    }
    if security.cipher == NULL_CIPHER {
      assert packet[cleartext..length] == all[HEADER_LENGTH..];
      return clen, cleartext;
    }
    if clen < 16 {
      return -1, cleartext;
    }
    cleartext := cleartext + 8;
    clen := OpenFragment(aes, peer.role, security, packet, length);
    if clen >= 0 {
      peer.FreeOther();
    }
  }

  lemma EarlyOutcome(aes: KeyedCipher, role: Role, p: Option<Params>, packet: seq<Byte>)
    requires |packet| >= HEADER_LENGTH
    ensures p.None? ==> OpenPacket(aes, role, p, packet) == None
    ensures p.Some? && p.value.cipher == NULL_CIPHER ==> OpenPacket(aes, role, p, packet) == Some(packet[HEADER_LENGTH..])
    ensures p.Some? && p.value.cipher != NULL_CIPHER && |packet| < HEADER_LENGTH + 16 ==> OpenPacket(aes, role, p, packet) == None
  {
  }

  ghost function AfterFreeOther(peer: Peer): Security?
    reads peer, peer.params0, peer.params1
  {
    if peer.params0 != null && peer.params1 != null && peer.params0.epoch >= peer.params1.epoch then null else peer.params1
  }

  /** dtls_decrypt on the fragment behind header and explicit nonce. */
  method OpenFragment(aes: KeyedCipher, role: Role, security: Security, packet: array<Byte>, length: nat)
    returns (clen: int)
    requires HEADER_LENGTH + 16 <= length <= packet.Length && length < 0x100_0000 && security.cipher != NULL_CIPHER
    modifies packet
    ensures var d := OpenPacket(aes, role, Some(security.Value()), old(packet[..length]));
      && (d.Some? ==> clen == |d.value| && 21 + |d.value| <= length && packet[21..21 + |d.value|] == d.value)
      && (d.None? ==> clen == -1)
    ensures packet[..21] == old(packet[..21]) && packet[length..] == old(packet[length..])
  {
    hide Pow, Open, AData, NonceOf, ValidParams, Crypt;
    CcmFits();
    ghost var all := packet[..length];
    var nonce := NonceOf(RemoteIv(security.keyBlock, role), packet[13..21]);
    var aad := AData(packet[..13], length - 29);
    assert packet[13..21] == all[13..21] && packet[21..21 + (length - 21)] == all[21..];
    SameHeader(all, packet[..13], length - 29);
    clen := DecryptMessage(aes(RemoteKey(security.keyBlock, role)), TAG_LENGTH, LENGTH_BYTES, nonce, packet, 21, length - 21, aad);
  }

  lemma SameHeader(all: seq<Byte>, h: seq<Byte>, len: nat)
    requires |all| >= 13 && h == all[..13]
    ensures AData(all, len) == AData(h, len)
  {
    assert h[3..11] == all[3..11] && h[..3] == all[..3];
  }
}
