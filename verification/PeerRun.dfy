/** The security parameters of one peer over every run. */
module PeerRun {
  import opened Basics
  import opened PeerState

  /** One slot of security_params, as far as record numbers are concerned. */
  datatype Slot = Slot(epoch: UInt16, rseq: UInt64, encrypted: bool)

  datatype Phase = WaitHelloDone | WaitCcs | WaitFinished | OtherPhase

  /** A record number: the epoch and the 48 bits of the sequence number that are written. */
  datatype Number = Number(epoch: UInt16, seqno: UInt48)

  type UInt48 = x: nat | x < SEQUENCE_LIMIT

  /** queue holds the epochs of the retransmission nodes, log the numbers of all encrypted
      records sent so far. */
  datatype State = State(role: Role, phase: Phase, s0: Option<Slot>, s1: Option<Slot>,
                         queue: seq<UInt16>, log: seq<Number>)

  const SEQUENCE_LIMIT: nat := 0x1_0000_0000_0000   // 2^48

  // ---- the building blocks ----

  /** The record made under a slot; nothing is logged when it is not encrypted or not sent. */
  function Stamp(log: seq<Number>, x: Slot, sent: bool): seq<Number> {
    if sent && x.encrypted then log + [Number(x.epoch, x.rseq % SEQUENCE_LIMIT)] else log
  }

  function Used(x: Slot): Slot {
    x.(rseq := NextNumber(x.rseq))
  }

  /** dtls_send_multi under the current parameters. */
  function Send(s: State, sent: bool, keep: bool): State {
    match s.s0
    case None => s.(queue := if sent && keep then s.queue + [0] else s.queue)
    case Some(x) =>
      s.(s0 := Some(Used(x)), log := Stamp(s.log, x, sent),
         queue := if sent && keep then s.queue + [x.epoch] else s.queue)
  }

  /** dtls_retransmit of a node of the given epoch: the slots are asked in order. */
  function Retransmit(s: State, epoch: UInt16, sent: bool): State {
    if s.s0.Some? && s.s0.value.epoch == epoch then
      s.(s0 := Some(Used(s.s0.value)), log := Stamp(s.log, s.s0.value, sent))
    else if s.s1.Some? && s.s1.value.epoch == epoch then
      s.(s1 := Some(Used(s.s1.value)), log := Stamp(s.log, s.s1.value, sent))
    else s
  }

  /** calculate_key_block: new parameters; without success they have no cipher yet. */
  function KeyBlockStep(s: State, ok: bool): State
    requires s.s0.Some?
  {
    s.(s1 := Some(Slot(NextEpoch(s.s0.value.epoch), 0, ok)))
  }

  function SwitchStep(s: State): State {
    s.(s0 := s.s1, s1 := s.s0)
  }

  function FreeOtherStep(s: State): State {
    if s.s0.None? || s.s1.None? || s.s0.value.epoch < s.s1.value.epoch then s else s.(s1 := None)
  }

  /** What a failing handler leaves behind: the peer closes, or its state stays. */
  function Failed(s: State, closed: bool): State {
    if closed then s.(phase := OtherPhase) else s
  }

  // ---- the handlers ----

  /** A ChangeCipherSpec of our own, the switch, and the Finished message under it. */
  function ChangeCipher(s: State, ccsSent: bool, finSent: bool, closed: bool, done: Phase): State {
    var u := Send(s, ccsSent, true);
    if !ccsSent then Failed(u, closed)
    else
      var w := Send(SwitchStep(u), finSent, true);
      if !finSent then Failed(w, closed) else w.(phase := done)
  }

  datatype Event =
    | SendRecord(sent: bool, keep: bool)
    | RetransmitNode(node: nat, sent: bool)
    | StopRetransmission
    | DropNode(node: nat)
    | DecryptedRecord
    | EnterPhase(phase: Phase)
    | ServerHelloDone(keyOk: bool, ccsSent: bool, finSent: bool, closed: bool)
    | ChangeCipherSpec(keyOk: bool, closed: bool)
    | Finished(epoch: UInt16, verified: bool, ccsSent: bool, finSent: bool, closed: bool)

  function Known(s: State, epoch: UInt16): bool {
    || (s.s0.Some? && s.s0.value.epoch == epoch)
    || (s.s1.Some? && s.s1.value.epoch == epoch)
  }

  /** The epoch a handshake record must have: the next one for a server waiting for Finished. */
  function ExpectedEpoch(s: State): UInt16
    requires s.s0.Some?
  {
    if s.role == Server && s.phase == WaitFinished then NextEpoch(s.s0.value.epoch) else s.s0.value.epoch
  }

  /** One step of the peer; an event whose guard does not hold changes nothing. Without current
      parameters, which no run leads to, there is no step. */
  function Apply(s: State, e: Event): State {
    if s.s0.None? then s else
    match e
    case SendRecord(sent, keep) => Send(s, sent, keep)
    case RetransmitNode(i, sent) => if i < |s.queue| then Retransmit(s, s.queue[i], sent) else s
    case StopRetransmission => s.(queue := [])
    case DropNode(i) => if i < |s.queue| then s.(queue := s.queue[..i] + s.queue[i + 1..]) else s
    case DecryptedRecord => FreeOtherStep(s)
    case EnterPhase(p) => if p == WaitFinished || (p == WaitCcs && s.role == Client) then s else s.(phase := p)
    case ServerHelloDone(keyOk, ccsSent, finSent, closed) =>
      if s.phase != WaitHelloDone then s
      else if !keyOk then Failed(KeyBlockStep(s, false), closed)
      else ChangeCipher(KeyBlockStep(s, true), ccsSent, finSent, closed, WaitCcs)
    case ChangeCipherSpec(keyOk, closed) =>
      if s.phase != WaitCcs then s
      else if s.role == Client then s.(phase := WaitFinished)
      else if !keyOk then Failed(KeyBlockStep(s, false), closed)
      else KeyBlockStep(s, true).(phase := WaitFinished)
    case Finished(epoch, verified, ccsSent, finSent, closed) =>
      if s.phase != WaitFinished || epoch != ExpectedEpoch(s) || !Known(s, epoch) then s
      else if !verified then Failed(s, closed)
      else if s.role == Server then ChangeCipher(s, ccsSent, finSent, closed, OtherPhase)
      else s.(phase := OtherPhase)
  }

  /** A new peer: two empty slots of epoch 0; a server has already used number 0. */
  predicate Init(s: State) {
    && s.s0 == Some(Slot(0, if s.role == Server then 1 else 0, false))
    && s.s1 == Some(Slot(0, 0, false))
    && s.phase == OtherPhase && s.queue == [] && s.log == []
  }

  // ---- the invariant ----

  predicate NoWrap(s: State) {
    && (s.s0.Some? ==> s.s0.value.epoch < 0xFFFF && s.s0.value.rseq < SEQUENCE_LIMIT - 1)
    && (s.s1.Some? ==> s.s1.value.rseq < SEQUENCE_LIMIT - 1)
  }

  /** How the two slots stand to each other. */
  predicate Related(s: State) {
    && s.s0.Some?
    && (s.s1.Some? ==>
          var a, b := s.s0.value, s.s1.value;
          || (b.epoch == a.epoch == 0 && !a.encrypted && !b.encrypted)   // the initial pair
          || (b.epoch == a.epoch + 1 && b.rseq == 0)                     // pending
          || (b.epoch + 1 == a.epoch))                                   // the previous epoch
  }

  /** Every number used under a slot's epoch is below the slot's counter. */
  predicate Below(log: seq<Number>, x: Option<Slot>) {
    x.Some? ==> forall i :: 0 <= i < |log| && log[i].epoch == x.value.epoch ==> log[i].seqno < x.value.rseq
  }

  predicate UpTo(log: seq<Number>, epoch: nat) {
    forall i :: 0 <= i < |log| ==> log[i].epoch <= epoch
  }

  predicate Distinct(log: seq<Number>) {
    forall i, j :: 0 <= i < j < |log| ==> log[i] != log[j]
  }

  predicate Inv(s: State) {
    && Related(s)
    && (forall i :: 0 <= i < |s.queue| ==> s.queue[i] <= s.s0.value.epoch)
    && UpTo(s.log, s.s0.value.epoch)
    && (s.s1.Some? && s.s1.value.epoch == s.s0.value.epoch ==> s.log == [])
    && Below(s.log, s.s0) && Below(s.log, s.s1)
    && Distinct(s.log)
  }

  lemma StampKeeps(log: seq<Number>, x: Slot, sent: bool, other: Option<Slot>)
    requires x.rseq < SEQUENCE_LIMIT - 1 && Below(log, Some(x)) && Below(log, other) && Distinct(log)
    requires other.Some? ==> other.value.epoch != x.epoch || !x.encrypted
    ensures Below(Stamp(log, x, sent), Some(Used(x))) && Below(Stamp(log, x, sent), other) && Distinct(Stamp(log, x, sent))
    ensures forall e :: x.epoch <= e && UpTo(log, e) ==> UpTo(Stamp(log, x, sent), e)
  {
  }

  lemma SendKeeps(s: State, sent: bool, keep: bool)
    requires Inv(s) && NoWrap(s)
    ensures Inv(Send(s, sent, keep)) && Send(s, sent, keep).s0.value.epoch == s.s0.value.epoch
  {
    StampKeeps(s.log, s.s0.value, sent, s.s1);
  }

  lemma RetransmitKeeps(s: State, epoch: UInt16, sent: bool)
    requires Inv(s) && NoWrap(s) && epoch <= s.s0.value.epoch
    ensures Inv(Retransmit(s, epoch, sent)) && Retransmit(s, epoch, sent).s0.value.epoch == s.s0.value.epoch
  {
    if s.s0.value.epoch == epoch {
      StampKeeps(s.log, s.s0.value, sent, s.s1);
    } else if s.s1.Some? && s.s1.value.epoch == epoch {
      StampKeeps(s.log, s.s1.value, sent, s.s0);
    }
  }

  predicate Pending(s: State) {
    s.s0.Some? && s.s1.Some? && s.s1.value.epoch == s.s0.value.epoch + 1 && s.s1.value.rseq == 0
  }

  lemma KeyBlockKeeps(s: State, ok: bool)
    requires Inv(s) && NoWrap(s)
    ensures Inv(KeyBlockStep(s, ok)) && NoWrap(KeyBlockStep(s, ok)) && Pending(KeyBlockStep(s, ok))
  {
  }

  lemma SwitchKeeps(s: State)
    requires Inv(s) && Pending(s)
    ensures Inv(SwitchStep(s)) && SwitchStep(s).s0.value.epoch == s.s0.value.epoch + 1
  {
  }

  lemma ChangeCipherKeeps(s: State, ccsSent: bool, finSent: bool, closed: bool, done: Phase)
    requires Inv(s) && NoWrap(s) && Pending(s)
    ensures var t := ChangeCipher(s, ccsSent, finSent, closed, done);
      Inv(t) && t.s0.value.epoch == s.s0.value.epoch + if ccsSent then 1 else 0
  {
    hide Below, UpTo, Distinct;
    SendKeeps(s, ccsSent, true);
    var u := Send(s, ccsSent, true);
    if ccsSent {
      SwitchKeeps(u);
      SwitchedSend(SwitchStep(u), finSent);
    }
  }

  /** Right after a switch the current counter is still 0, so a record can be sent. */
  lemma SwitchedSend(s: State, sent: bool)
    requires Inv(s) && s.s0.value.rseq == 0
    ensures Inv(Send(s, sent, true)) && Send(s, sent, true).s0.value.epoch == s.s0.value.epoch
  {
    StampKeeps(s.log, s.s0.value, sent, s.s1);
  }

  /** Whether an event switches the parameters. */
  predicate Switches(s: State, e: Event)
    requires s.s0.Some?
  {
    match e
    case ServerHelloDone(keyOk, ccsSent, _, _) => s.phase == WaitHelloDone && keyOk && ccsSent
    case Finished(epoch, verified, ccsSent, _, _) =>
      s.phase == WaitFinished && s.role == Server && epoch == ExpectedEpoch(s) && Known(s, epoch) && verified && ccsSent
    case _ => false
  }

  function EpochAfter(s: State, e: Event): nat
    requires s.s0.Some?
  {
    s.s0.value.epoch + if Switches(s, e) then 1 else 0
  }

  /** Every event keeps the invariant, and the epoch rises by one exactly at a switch. */
  lemma ApplyKeeps(s: State, e: Event)
    requires Inv(s) && NoWrap(s)
    ensures Inv(Apply(s, e))
    ensures Apply(s, e).s0.value.epoch == EpochAfter(s, e)
  {
    hide Below, UpTo, Distinct, ChangeCipher;
    match e
    case SendRecord(sent, keep) => SendKeeps(s, sent, keep);
    case RetransmitNode(i, sent) =>
      if i < |s.queue| {
        RetransmitKeeps(s, s.queue[i], sent);
      }
    case ServerHelloDone(keyOk, ccsSent, finSent, closed) =>
      KeyBlockKeeps(s, keyOk);
      if keyOk {
        ChangeCipherKeeps(KeyBlockStep(s, true), ccsSent, finSent, closed, WaitCcs);
      }
    case ChangeCipherSpec(keyOk, _) => KeyBlockKeeps(s, keyOk);
    case Finished(epoch, verified, ccsSent, finSent, closed) =>
      if s.phase == WaitFinished && s.role == Server && epoch == ExpectedEpoch(s) && Known(s, epoch) {
        ChangeCipherKeeps(s, ccsSent, finSent, closed, OtherPhase);
      }
    case DecryptedRecord => FreeKeeps(s);
    case _ =>
  }

  lemma FreeKeeps(s: State)
    requires Inv(s)
    ensures Inv(FreeOtherStep(s)) && FreeOtherStep(s).s0 == s.s0
  {
  }

  // ---- what is logged ----

  /** Every record that goes out under a cipher is logged with its epoch and number, also one sent
      again, which has a new number. */
  lemma SentIsLogged(s: State, keep: bool, i: nat)
    requires Inv(s) && NoWrap(s)
    ensures s.s0.value.encrypted ==>
      Apply(s, SendRecord(true, keep)).log == s.log + [Number(s.s0.value.epoch, s.s0.value.rseq)]
    ensures i < |s.queue| && s.queue[i] == s.s0.value.epoch && s.s0.value.encrypted ==>
      Apply(s, RetransmitNode(i, true)).log == s.log + [Number(s.s0.value.epoch, s.s0.value.rseq)]
    ensures i < |s.queue| && s.s1.Some? && s.queue[i] == s.s1.value.epoch != s.s0.value.epoch && s.s1.value.encrypted ==>
      Apply(s, RetransmitNode(i, true)).log == s.log + [Number(s.s1.value.epoch, s.s1.value.rseq)]
  {
    hide Below, UpTo, Distinct;
  }

  /** Our Finished is the first record of the new epoch, under the new cipher. */
  lemma FinishedComesFirst(s: State, closed: bool)
    requires Inv(s) && NoWrap(s) && s.phase == WaitHelloDone
    ensures var t := Apply(s, ServerHelloDone(true, true, true, closed));
      t.log != [] && t.log[|t.log| - 1] == Number(s.s0.value.epoch + 1, 0) && t.s0 == Some(Slot(s.s0.value.epoch + 1, 1, true))
  {
    hide Below, UpTo, Distinct;
  }

  // ---- runs ----

  function Run(s: State, events: seq<Event>): State {
    if events == [] then s else Apply(Run(s, events[..|events| - 1]), events[|events| - 1])
  }

  /** In every run whose counters do not wrap: the current parameters are never missing,
      no two encrypted records have the same number, and the epoch rises by exactly one at
      each switch and is unchanged otherwise. */
  lemma {:induction false} RunIsSafe(s: State, events: seq<Event>)
    requires Init(s) && forall i :: 0 <= i < |events| ==> NoWrap(Run(s, events[..i]))
    ensures var t := Run(s, events); t.s0.Some? && Inv(t) && Distinct(t.log)
    ensures events != [] ==> var n := |events| - 1; var was := Run(s, events[..n]);
      was.s0.Some? && Run(s, events).s0.value.epoch == EpochAfter(was, events[n])
  {
    hide Below, UpTo, Distinct, Apply, Switches, NoWrap;
    if events == [] {
      InitInv(s);
    } else {
      var n := |events| - 1;
      assert forall i :: 0 <= i < n ==> events[..n][..i] == events[..i];
      RunIsSafe(s, events[..n]);
      ApplyKeeps(Run(s, events[..n]), events[n]);
    }
  }

  lemma InitInv(s: State)
    requires Init(s)
    ensures Inv(s)
  {
  }

  /** Two slots of one epoch are the initial pair: nothing encrypted has been sent, so that
      it does not matter which of them a lookup finds. */
  lemma LookupUnambiguous(s: State)
    requires Inv(s) && s.s1.Some? && s.s0.value.epoch == s.s1.value.epoch
    ensures s.s0.value.epoch == 0 && !s.s0.value.encrypted && !s.s1.value.encrypted && s.log == []
  {
  }

  // ---- which Finished is taken ----

  /** dtls_security_params_epoch: the first slot of the epoch. */
  function SlotOf(s: State, epoch: UInt16): Option<Slot> {
    if s.s0.Some? && s.s0.value.epoch == epoch then s.s0
    else if s.s1.Some? && s.s1.value.epoch == epoch then s.s1
    else None
  }

  predicate Ready(s: State) {
    s.s0.Some? && s.s1.Some? && s.s1.value.epoch == s.s0.value.epoch + 1
  }

  /** The parameters that a server waiting for Finished has ready have a cipher; a client is already under them. */
  predicate Keyed(s: State) {
    && (s.phase == WaitFinished && s.role == Server && Ready(s) ==> s.s1.value.encrypted)
    && (s.phase in {WaitCcs, WaitFinished} && s.role == Client ==>
          s.s0.Some? && s.s0.value.epoch > 0 && s.s0.value.encrypted)
  }

  lemma ApplyKeepsKeyed(s: State, e: Event)
    requires Inv(s) && NoWrap(s) && Keyed(s)
    ensures Keyed(Apply(s, e))
  {
    hide Below, UpTo, Distinct;
  }

  lemma {:induction false} RunIsKeyed(s: State, events: seq<Event>)
    requires Init(s) && forall i :: 0 <= i < |events| ==> NoWrap(Run(s, events[..i]))
    ensures Keyed(Run(s, events))
  {
    hide Apply, NoWrap, Inv;
    if events != [] {
      var n := |events| - 1;
      assert forall i :: 0 <= i < n ==> events[..n][..i] == events[..i];
      RunIsKeyed(s, events[..n]);
      RunIsSafe(s, events[..n]);
      ApplyKeepsKeyed(Run(s, events[..n]), events[n]);
    }
  }

  /** In every run, a Finished that changes anything came under the newly agreed cipher. */
  lemma FinishedIsProtected(s: State, events: seq<Event>, e: Event)
    requires Init(s) && (forall i :: 0 <= i <= |events| ==> NoWrap(Run(s, events[..i]))) && e.Finished?
    requires Apply(Run(s, events), e) != Run(s, events)
    ensures e.epoch > 0 && SlotOf(Run(s, events), e.epoch).Some? && SlotOf(Run(s, events), e.epoch).value.encrypted
  {
    hide Run, ChangeCipher, Failed;
    assert events[..|events|] == events;
    RunIsKeyed(s, events);
  }
}
