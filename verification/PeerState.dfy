/** peer.h and crypto.h: the security parameters of a peer. */
module PeerState {
  import opened Bytes

  type UInt16 = x: nat | x < 0x1_0000
  type UInt64 = x: nat | x < 0x1_0000_0000_0000_0000

  const NULL_CIPHER: UInt16 := 0             // TLS_NULL_WITH_NULL_NULL
  const KEY_LENGTH := 16
  const IV_LENGTH := 4
  const KEYBLOCK_LENGTH := 2 * KEY_LENGTH + 2 * IV_LENGTH   // two write keys, then two salts

  type KeyBlock = s: seq<Byte> | |s| == KEYBLOCK_LENGTH witness seq(KEYBLOCK_LENGTH, _ => 0)

  datatype Role = Client | Server

  function Other(r: Role): Role {
    if r == Client then Server else Client
  }

  /** The 16-bit epoch and the 64-bit sequence number wrap around. */
  function NextEpoch(e: UInt16): UInt16 {
    if e == 0xFFFF then 0 else e + 1
  }

  function NextNumber(n: UInt64): UInt64 {
    if n == 0xFFFF_FFFF_FFFF_FFFF then 0 else n + 1
  }

  // ---- the parts of the key block ----

  function ClientKey(kb: KeyBlock): seq<Byte> { kb[..16] }
  function ServerKey(kb: KeyBlock): seq<Byte> { kb[16..32] }
  function ClientIv(kb: KeyBlock): seq<Byte> { kb[32..36] }
  function ServerIv(kb: KeyBlock): seq<Byte> { kb[36..40] }

  function LocalKey(kb: KeyBlock, role: Role): (k: seq<Byte>)
    ensures |k| == KEY_LENGTH
  {
    if role == Client then ClientKey(kb) else ServerKey(kb)
  }

  function RemoteKey(kb: KeyBlock, role: Role): (k: seq<Byte>)
    ensures |k| == KEY_LENGTH && k == LocalKey(kb, Other(role))
  {
    if role == Server then ClientKey(kb) else ServerKey(kb)
  }

  function LocalIv(kb: KeyBlock, role: Role): (iv: seq<Byte>)
    ensures |iv| == IV_LENGTH
  {
    if role == Client then ClientIv(kb) else ServerIv(kb)
  }

  function RemoteIv(kb: KeyBlock, role: Role): (iv: seq<Byte>)
    ensures |iv| == IV_LENGTH && iv == LocalIv(kb, Other(role))
  {
    if role == Server then ClientIv(kb) else ServerIv(kb)
  }

  // ---- the security parameters ----

  /** The parameters as a value. */
  datatype Params = Params(cipher: UInt16, epoch: UInt16, rseq: UInt64, keyBlock: KeyBlock)

  class Security {
    var cipher: UInt16
    var epoch: UInt16
    var rseq: UInt64
    var keyBlock: KeyBlock

    /** dtls_security_new: all zero, no cipher. */
    constructor ()
      ensures cipher == NULL_CIPHER && epoch == 0 && rseq == 0
    {
      cipher, epoch, rseq, keyBlock := NULL_CIPHER, 0, 0, seq(40, _ => 0);
    }

    function Value(): Params
      reads this
    {
      Params(cipher, epoch, rseq, keyBlock)
    }
  }

  class Peer {
    var role: Role
    var params0: Security?
    var params1: Security?

    /** dtls_new_peer: a pair of empty parameters, both of epoch 0. */
    constructor (role: Role)
      ensures this.role == role && params0 != null && params1 != null && params0 != params1
      ensures fresh(params0) && fresh(params1)
      ensures params0.cipher == params1.cipher == NULL_CIPHER && params0.epoch == params1.epoch == 0
      ensures params0.rseq == params1.rseq == 0
    {
      this.role := role;
      params0 := new Security();
      params1 := new Security();
    }

    /** The parameters of an epoch: the first slot is asked first. */
    function ParamsEpoch(epoch: UInt16): (s: Security?)
      reads this, params0, params1
      ensures s != null ==> s.epoch == epoch && (s == params0 || s == params1)
      ensures s == null ==> (params0 != null ==> params0.epoch != epoch) && (params1 != null ==> params1.epoch != epoch)
    {
      if params0 != null && params0.epoch == epoch then params0
      else if params1 != null && params1.epoch == epoch then params1
      else null
    }

    /** Fresh parameters for the next epoch take the second slot. */
    method ParamsNext() returns (s: Security)
      requires params0 != null
      modifies this`params1
      ensures fresh(s) && params1 == s && s.cipher == NULL_CIPHER && s.rseq == 0
      ensures s.epoch == NextEpoch(params0.epoch)
    {
      s := new Security();
      params1 := s;
      s.epoch := NextEpoch(params0.epoch);
    }

    /** Drops the second slot unless it is the pending next epoch. */
    method FreeOther()
      modifies this`params1
      ensures params1 == if old(params0 != null && params1 != null && params0.epoch >= params1.epoch) then null else old(params1)
    {
      if params0 == null || params1 == null || params0.epoch < params1.epoch {
        return;
      }
      params1 := null;
    }

    method Switch()
      modifies this`params0, this`params1
      ensures params0 == old(params1) && params1 == old(params0)
    {
      params0, params1 := params1, params0;
    }
  }
}
