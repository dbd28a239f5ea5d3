/** dtls.c: what sending and the handshake's cipher changes do to a peer in place: each method
    is one step of the machine of epochs and record numbers. */
module Connection {
  import opened Basics
  import opened PeerState
  import opened PeerRun

  /** Whether a record goes out is an input: the buffer may be too small, or the network refuse it. */
  class Endpoint {
    const peer: Peer
    var phase: Phase
    var queue: seq<UInt16>       // the epochs of the peer's nodes in the send queue
    ghost var log: seq<Number>

    ghost predicate Valid()
      reads this, peer
    {
      peer.params0 != null && peer.params0 != peer.params1
    }

    ghost function SlotOf(x: Security?): Option<Slot>
      reads x
    {
      if x == null then None else Some(Slot(x.epoch, x.rseq, x.cipher != NULL_CIPHER))
    }

    /** The state of the run that this peer is in. */
    ghost function Now(): State
      reads this, peer, peer.params0, peer.params1
    {
      State(peer.role, phase, SlotOf(peer.params0), SlotOf(peer.params1), queue, log)
    }

    /** dtls_new_peer, with the first record number of a server peer set to 1. */
    constructor (role: Role)
      ensures Valid() && Init(Now()) && peer.role == role && fresh(peer)
    {
      var p := new Peer(role);
      if role == Server {
        p.params0.rseq := 1;
      }
      peer, phase, queue, log := p, OtherPhase, [], [];
    }

    /** dtls_prepare_record numbers the record whether or not it can be sent. */
    method Number(security: Security, sent: bool)
      modifies this`log, security`rseq
      ensures log == Stamp(old(log), Slot(security.epoch, old(security.rseq), security.cipher != NULL_CIPHER), sent)
      ensures security.rseq == NextNumber(old(security.rseq))
    {
      if sent && security.cipher != NULL_CIPHER {
        log := log + [PeerRun.Number(security.epoch, security.rseq % SEQUENCE_LIMIT)];
      }
      security.rseq := NextNumber(security.rseq);
    }

    method SendMulti(sent: bool, keep: bool)
      requires Valid()
      modifies this`log, this`queue, peer.params0`rseq
      ensures Valid() && Now() == Apply(old(Now()), SendRecord(sent, keep))
    {
      Number(peer.params0, sent);
      if sent && keep {
        queue := queue + [peer.params0.epoch];
      }
    }

    method Resend(node: nat, sent: bool)
      requires Valid() && node < |queue|
      modifies this`log, peer.params0, peer.params1
      ensures Valid() && Now() == Apply(old(Now()), RetransmitNode(node, sent))
    {
      var security := peer.ParamsEpoch(queue[node]);
      if security != null {
        Number(security, sent);
      }
    }

    method ForgetNodes()
      requires Valid()
      modifies this`queue
      ensures Valid() && Now() == Apply(old(Now()), StopRetransmission)
    {
      queue := [];
    }

    /** A record of some epoch has been decrypted. */
    method Accepted()
      requires Valid()
      modifies peer`params1
      ensures Valid() && Now() == Apply(old(Now()), DecryptedRecord)
    {
      peer.FreeOther();
    }

    /** The outcome of the pre-master secret decides whether the new parameters get a cipher. */
    method CalculateKeyBlock(ok: bool, cipher: UInt16, keyBlock: KeyBlock)
      requires Valid() && cipher != NULL_CIPHER
      modifies peer`params1
      ensures Valid() && peer.params0 == old(peer.params0) && fresh(peer.params1) && Now() == KeyBlockStep(old(Now()), ok)
    {
      var security := peer.ParamsNext();
      if !ok {
        return;
      }
      security.keyBlock := keyBlock;
      security.cipher := cipher;
      security.rseq := 0;
    }

    method CipherChange(ccsSent: bool, finSent: bool, closed: bool, done: Phase)
      requires Valid() && peer.params1 != null
      modifies this, peer`params0, peer`params1, peer.params0, peer.params1
      ensures Valid() && Now() == ChangeCipher(old(Now()), ccsSent, finSent, closed, done)
    {
      SendMulti(ccsSent, true);
      if ccsSent {
        peer.Switch();
        SendMulti(finSent, true);
        if finSent {
          phase := done;
          return;
        }
      }
      if closed {
        phase := OtherPhase;
      }
    }

    method HelloDone(keyOk: bool, cipher: UInt16, keyBlock: KeyBlock, ccsSent: bool, finSent: bool, closed: bool)
      requires Valid() && cipher != NULL_CIPHER
      modifies this, peer, peer.params0
      ensures Valid() && Now() == Apply(old(Now()), ServerHelloDone(keyOk, ccsSent, finSent, closed))
    {
      if phase != WaitHelloDone {
        return;
      }
      CalculateKeyBlock(keyOk, cipher, keyBlock);
      if keyOk {
        CipherChange(ccsSent, finSent, closed, WaitCcs);
      } else if closed {
        phase := OtherPhase;
      }
    }

    /** A server computes its key block now; when it cannot, the peer may be closed. */
    method HandleCcs(keyOk: bool, cipher: UInt16, keyBlock: KeyBlock, closed: bool)
      requires Valid() && cipher != NULL_CIPHER
      modifies this, peer
      ensures Valid() && Now() == Apply(old(Now()), ChangeCipherSpec(keyOk, closed))
    {
      if phase != WaitCcs {
        return;
      }
      if peer.role == Server {
        CalculateKeyBlock(keyOk, cipher, keyBlock);
        if !keyOk {
          if closed {
            phase := OtherPhase;
          }
          return;
        }
      }
      phase := WaitFinished;
    }

    /** A Finished message in a record of the given epoch. */
    method HandleFinished(epoch: UInt16, verified: bool, ccsSent: bool, finSent: bool, closed: bool)
      requires Valid()
      modifies this, peer, peer.params0, peer.params1
      ensures Valid() && Now() == Apply(old(Now()), PeerRun.Finished(epoch, verified, ccsSent, finSent, closed))
    {
      var expected := peer.params0.epoch;
      if peer.role == Server && phase == WaitFinished {
        expected := NextEpoch(expected);
      }
      if phase != WaitFinished || epoch != expected || peer.ParamsEpoch(epoch) == null {
        return;
      }
      if !verified {
        if closed {
          phase := OtherPhase;
        }
        return;
      }
      if peer.role == Server {
        CipherChange(ccsSent, finSent, closed, OtherPhase);
      } else {
        phase := OtherPhase;
      }
    }
  }
}
