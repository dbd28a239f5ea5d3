/** dtls.c: handshake messages are handled in order. */
module Reorder {
  import opened Basics
  import opened Bytes

  datatype Packet = Packet(seqno: nat, data: seq<Byte>)

  /** What handling a message can lead to: it is done and the next one is expected, it is
      ignored, the handshake is over, or it fails. */
  datatype Outcome = Advance | Ignore | Close | Error(code: int)

  const MAX_BUF: nat := 1400   // DTLS_MAX_BUF

  function Numbers(queue: seq<Packet>): set<nat> {
    set i | 0 <= i < |queue| :: queue[i].seqno
  }

  predicate DistinctNumbers(queue: seq<Packet>) {
    forall i, j :: 0 <= i < j < |queue| ==> queue[i].seqno != queue[j].seqno
  }

  predicate Later(queue: seq<Packet>, mseqR: nat) {
    forall i :: 0 <= i < |queue| ==> queue[i].seqno > mseqR
  }

  predicate NotEarlier(queue: seq<Packet>, mseqR: nat) {
    forall i :: 0 <= i < |queue| ==> queue[i].seqno >= mseqR
  }

  lemma NumbersGrow(queue: seq<Packet>, i: nat)
    requires i < |queue|
    ensures Numbers(queue[..i + 1]) == Numbers(queue[..i]) + {queue[i].seqno}
  {
    forall n | n in Numbers(queue[..i])
      ensures n in Numbers(queue[..i + 1])
    {
      var j :| 0 <= j < i && queue[..i][j].seqno == n;
      assert queue[..i + 1][j] == queue[..i][j];
    }
    assert queue[..i + 1][i] == queue[i];
  }

  function Taken(queue: seq<Packet>, i: nat): seq<Packet>
    requires i < |queue|
  {
    queue[..i] + queue[i + 1..]
  }

  lemma TakenFacts(queue: seq<Packet>, i: nat)
    requires i < |queue| && DistinctNumbers(queue)
    ensures DistinctNumbers(Taken(queue, i)) && Numbers(Taken(queue, i)) == Numbers(queue) - {queue[i].seqno}
    ensures forall n :: NotEarlier(queue, n) && queue[i].seqno == n ==> Later(Taken(queue, i), n)
  {
    var rest := Taken(queue, i);
    forall n | n in Numbers(queue) && n != queue[i].seqno
      ensures n in Numbers(rest)
    {
      var j :| 0 <= j < |queue| && queue[j].seqno == n;
      assert rest[if j < i then j else j - 1] == queue[j];
    }
    forall j | 0 <= j < |rest|
      ensures rest[j].seqno in Numbers(queue) && rest[j].seqno != queue[i].seqno
    {
      assert rest[j] == queue[if j < i then j else j + 1];
    }
  }

  function Insert(queue: seq<Packet>, p: Packet, at: nat): seq<Packet> {
    if at < |queue| then queue[..at] + [p] + queue[at..] else queue + [p]
  }

  lemma InsertFacts(queue: seq<Packet>, p: Packet, at: nat)
    requires DistinctNumbers(queue) && p.seqno !in Numbers(queue)
    ensures DistinctNumbers(Insert(queue, p, at)) && Numbers(Insert(queue, p, at)) == Numbers(queue) + {p.seqno}
    ensures forall n :: Later(queue, n) && p.seqno > n ==> Later(Insert(queue, p, at), n)
  {
    var k := if at < |queue| then at else |queue|;
    var q := Insert(queue, p, at);
    assert q == queue[..k] + [p] + queue[k..];
    assert q[k] == p;
    forall n | n in Numbers(queue)
      ensures n in Numbers(q)
    {
      var j :| 0 <= j < |queue| && queue[j].seqno == n;
      assert q[if j < k then j else j + 1] == queue[j];
    }
  }

  /** The packets are numbered one after the other from a up to b, b not included. */
  predicate Numbered(packets: seq<Packet>, a: nat, b: nat) {
    a + |packets| == b && forall k :: 0 <= k < |packets| ==> packets[k].seqno == a + k
  }

  lemma NumberedSnoc(packets: seq<Packet>, p: Packet, a: nat, b: nat)
    requires Numbered(packets, a, b) && p.seqno == b
    ensures Numbered(packets + [p], a, b + 1)
  {
  }

  lemma NumberedJoin(x: seq<Packet>, y: seq<Packet>, a: nat, b: nat, c: nat)
    requires Numbered(x, a, b) && Numbered(y, b, c)
    ensures Numbered(x + y, a, c)
  {
  }

  lemma NumberedNone(a: nat)
    ensures Numbered([], a, a)
  {
  }

  /** The first packet of that number. */
  function First(packets: seq<Packet>, n: nat): Option<Packet> {
    if packets == [] then None
    else
      var front := First(packets[..|packets| - 1], n);
      var p := packets[|packets| - 1];
      if front.Some? then front else if p.seqno == n then Some(p) else None
  }

  lemma {:induction false} FirstOf(packets: seq<Packet>, n: nat)
    ensures n in Numbers(packets) <==> First(packets, n).Some?
    ensures First(packets, n).Some? ==> First(packets, n).value in packets && First(packets, n).value.seqno == n
  {
    if packets != [] {
      var k := |packets| - 1;
      FirstOf(packets[..k], n);
      NumbersGrow(packets, k);
      assert packets[..k + 1] == packets;
    }
  }

  lemma {:induction false} FirstAmongDistinct(packets: seq<Packet>, p: Packet)
    requires DistinctNumbers(packets) && p in packets
    ensures First(packets, p.seqno) == Some(p)
  {
    var k := |packets| - 1;
    if packets[k] == p {
      FirstOf(packets[..k], p.seqno);
    } else {
      FirstAmongDistinct(packets[..k], p);
    }
  }

  /** The packets of a sequence, without their order. */
  function Held(packets: seq<Packet>): set<Packet> {
    set p | p in packets
  }

  /** One more packet is the first of its number exactly when that number is new. */
  lemma FirstNext(seen: seq<Packet>, p: Packet, n: nat)
    ensures First(seen + [p], n) == if First(seen, n).None? && p.seqno == n then Some(p) else First(seen, n)
  {
    assert (seen + [p])[..|seen|] == seen;
  }

  lemma NumbersNext(seen: seq<Packet>, p: Packet)
    ensures Numbers(seen + [p]) == Numbers(seen) + {p.seqno}
  {
    NumbersGrow(seen + [p], |seen|);
    assert (seen + [p])[..|seen|] == seen && (seen + [p])[..|seen| + 1] == seen + [p];
  }

  lemma StillFirst(seen: seq<Packet>, p: Packet, kept: set<Packet>, now: set<Packet>)
    requires forall x :: x in kept ==> First(seen, x.seqno) == Some(x)
    requires now <= kept + {p} && (p in now && p !in kept ==> p.seqno !in Numbers(seen))
    ensures forall x :: x in now ==> First(seen + [p], x.seqno) == Some(x)
  {
    forall x | x in now
      ensures First(seen + [p], x.seqno) == Some(x)
    {
      FirstNext(seen, p, x.seqno);
      FirstOf(seen, x.seqno);
    }
  }

  lemma NumbersConcat(a: seq<Packet>, b: seq<Packet>, n: nat)
    ensures n in Numbers(a + b) <==> n in Numbers(a) || n in Numbers(b)
  {
    if n in Numbers(a) {
      var i :| 0 <= i < |a| && a[i].seqno == n;
      assert (a + b)[i] == a[i];
    }
    if n in Numbers(b) {
      var i :| 0 <= i < |b| && b[i].seqno == n;
      assert (a + b)[|a| + i] == b[i];
    }
  }

  lemma HeldConcat(a: seq<Packet>, b: seq<Packet>)
    ensures Held(a + b) == Held(a) + Held(b)
  {
  }

  lemma TakenHeld(queue: seq<Packet>, i: nat)
    requires i < |queue|
    ensures Held(Taken(queue, i)) + {queue[i]} == Held(queue)
  {
    var rest := Taken(queue, i);
    forall p | p in Held(queue) && p != queue[i]
      ensures p in rest
    {
      var j :| 0 <= j < |queue| && queue[j] == p;
      assert rest[if j < i then j else j - 1] == p;
    }
  }

  lemma InsertHeld(queue: seq<Packet>, p: Packet, at: nat)
    ensures Held(Insert(queue, p, at)) == Held(queue) + {p}
  {
    var k := if at < |queue| then at else |queue|;
    assert Insert(queue, p, at) == queue[..k] + [p] + queue[k..] && queue == queue[..k] + queue[k..];
  }

  class Handshake {
    var mseqR: nat
    var queue: seq<Packet>
    var open: bool                   // handshake_params is there
    ghost var delivered: seq<Packet>   // what has been handled so far

    ghost predicate Valid()
      reads this
    {
      DistinctNumbers(queue) && Later(queue, mseqR)
    }

    constructor (mseqR: nat)
      ensures Valid() && open && this.mseqR == mseqR && queue == [] && delivered == []
    {
      this.mseqR, queue, open, delivered := mseqR, [], true, [];
    }

    /** handle_handshake_msg, which only ever gets the expected message. */
    method Deliver(p: Packet, outcome: Outcome) returns (res: int)
      requires open && p.seqno == mseqR
      modifies this
      ensures queue == old(queue) && delivered == old(delivered) + [p]
      ensures outcome == Advance ==> res >= 0 && open && mseqR == old(mseqR) + 1
      ensures outcome != Advance ==> mseqR == old(mseqR) && (open <==> outcome != Close)
      ensures res < 0 <==> outcome.Error?
    {
      delivered := delivered + [p];
      match outcome {
        case Advance => mseqR := mseqR + 1; res := 0;
        case Ignore => res := 0;
        case Close => open := false; res := 0;
        case Error(code) => res := if code < 0 then code else -1;
      }
    }

    /** The search for a node with the given number, from the head on. */
    method Find(seqno: nat) returns (i: nat)
      ensures i <= |queue| && (i < |queue| ==> queue[i].seqno == seqno)
      ensures i == |queue| <==> seqno !in Numbers(queue)
    {
      i := 0;
      while i < |queue| && queue[i].seqno != seqno
        invariant i <= |queue| && forall j :: 0 <= j < i ==> queue[j].seqno != seqno
      {
        i := i + 1;
      }
    }

    /** A number is known when it has been handled or waits in the buffer. */
    ghost predicate Known(n: nat)
      reads this
    {
      n < mseqR || n in Numbers(queue)
    }

    /** What waits, and what has been handled since there were d. */
    ghost function Kept(d: nat): set<Packet>
      requires d <= |delivered|
      reads this
    {
      Held(queue) + Held(delivered[d..])
    }

    /** handle_handshake for a message of an open handshake. `space` says whether a buffer node
        is to be had and `at` where it goes; `outcomes` says how the messages handled turn out.
        What is handled or waits afterwards came in now or waited before, contents included.
        After every return without error the handshake is over or again in order; and when
        nothing is refused, nothing is lost, and the message is kept when its number is new. */
    method Handle(p: Packet, space: bool, at: nat, outcomes: nat -> Outcome) returns (res: int)
      requires Valid() && open
      modifies this
      ensures res >= 0 && open ==> Valid()
      ensures old(delivered) <= delivered
      ensures forall k :: |old(delivered)| <= k < |delivered| ==> old(mseqR) <= delivered[k].seqno <= mseqR
      ensures Kept(|old(delivered)|) <= Held(old(queue)) + {p}
      ensures space && |p.data| <= MAX_BUF && (forall k :: outcomes(k) == Advance) ==>
        && res >= 0 && open && mseqR >= old(mseqR)
        && Numbered(delivered[|old(delivered)|..], old(mseqR), mseqR)
        && (forall n :: Known(n) <==> old(Known(n)) || n == p.seqno)
        && Kept(|old(delivered)|) == Held(old(queue)) + if old(Known(p.seqno)) then {} else {p}
    {
      res := 0;
      ghost var d := |delivered|;
      assert delivered[d..] == [];
      if p.seqno < mseqR {
        return;
      }
      if p.seqno > mseqR {
        if |p.data| > MAX_BUF {
          return;
        }
        var i := Find(p.seqno);
        if i < |queue| || !space {
          return;
        }
        InsertFacts(queue, p, at);
        InsertHeld(queue, p, at);
        queue := Insert(queue, p, at);
        return;
      }
      res := Deliver(p, outcomes(0));
      assert delivered[d..] == [p];
      if res < 0 {
        return;
      }
      ghost var was := delivered;
      res := Drain(res, outcomes);
      assert delivered[d..] == [p] + delivered[|was|..];
    }

    /** Of the messages seen since there were d handled and m0 expected, each number's first one has
        been handled or waits, and those handled are consecutive. */
    ghost predicate InOrder(seen: seq<Packet>, d: nat, m0: nat)
      reads this
    {
      && Valid() && open && mseqR >= m0 && |delivered| >= d && Numbered(delivered[d..], m0, mseqR)
      && (forall n: nat :: Known(n) <==> n < m0 || n in Numbers(seen))
      && forall x :: x in Kept(d) ==> First(seen, x.seqno) == Some(x)
    }

    method HandleNext(p: Packet, at: nat, ghost seen: seq<Packet>, ghost d: nat, ghost m0: nat)
      requires InOrder(seen, d, m0) && |p.data| <= MAX_BUF
      modifies this
      ensures InOrder(seen + [p], d, m0) && old(delivered) <= delivered
    {
      hide First, DistinctNumbers, Numbered, Numbers, Held;
      ghost var was, m, kept := delivered, mseqR, Kept(d);
      var res := Handle(p, true, at, (k: nat) => Advance);
      assert delivered[d..] == was[d..] + delivered[|was|..];
      NumberedJoin(was[d..], delivered[|was|..], m0, m, mseqR);
      NumbersNext(seen, p);
      HeldConcat(was[d..], delivered[|was|..]);
      assert Kept(d) <= kept + {p};
      StillFirst(seen, p, kept, Kept(d));
    }

    /** Every message, in whatever order and however often it comes: if handling never fails,
        the numbers handled are consecutive, the first that is missing is the first that has not
        come, and what is handled under a number, or waits, is the first message that came with it. */
    method HandleAll(packets: seq<Packet>, at: nat)
      requires Valid() && open && forall i :: 0 <= i < |packets| ==> |packets[i].data| <= MAX_BUF
      modifies this
      ensures Valid() && open && mseqR >= old(mseqR) && old(delivered) <= delivered
      ensures Numbered(delivered[|old(delivered)|..], old(mseqR), mseqR)
      ensures forall n :: Known(n) <==> old(Known(n)) || n in Numbers(packets)
      ensures !Known(mseqR)
      ensures forall x :: x in Kept(|old(delivered)|) ==> First(old(queue) + packets, x.seqno) == Some(x)
    {
      ghost var d, q0, m0 := |delivered|, queue, mseqR;
      StartsInOrder();
      assert q0 + packets[..0] == q0;
      for i := 0 to |packets|
        invariant InOrder(q0 + packets[..i], d, m0) && old(delivered) <= delivered
      {
        hide InOrder;
        HandleNext(packets[i], at, q0 + packets[..i], d, m0);
        assert q0 + packets[..i + 1] == q0 + packets[..i] + [packets[i]];
      }
      assert packets[..|packets|] == packets;
      forall n: nat
        ensures n in Numbers(q0 + packets) <==> n in Numbers(q0) || n in Numbers(packets)
      {
        NumbersConcat(q0, packets, n);
      }
    }

    lemma StartsInOrder()
      requires Valid() && open
      ensures InOrder(queue, |delivered|, mseqR)
    {
      hide First;
      assert delivered[|delivered|..] == [];
      NumberedNone(mseqR);
      forall x | x in Kept(|delivered|)
        ensures First(queue, x.seqno) == Some(x)
      {
        FirstAmongDistinct(queue, x);
      }
    }

    /** Takes a buffered message out and handles it. */
    method HandleBuffered(i: nat, outcome: Outcome) returns (res: int)
      requires DistinctNumbers(queue) && NotEarlier(queue, mseqR) && i < |queue| && queue[i].seqno == mseqR && open
      modifies this
      ensures DistinctNumbers(queue) && NotEarlier(queue, mseqR) && |queue| == |old(queue)| - 1
      ensures delivered == old(delivered) + [old(queue[i])] && old(mseqR) <= mseqR
      ensures Held(queue) + {old(queue[i])} == Held(old(queue))
      ensures res < 0 <==> outcome.Error?
      ensures !open ==> outcome == Close
      ensures outcome == Advance ==> open && mseqR == old(mseqR) + 1 && forall n :: Known(n) <==> old(Known(n))
    {
      hide DistinctNumbers;
      var p := queue[i];
      TakenFacts(queue, i);
      TakenHeld(queue, i);
      queue := Taken(queue, i);
      res := Deliver(p, outcome);
    }

    /** Handles the buffered messages whose turn has come. */
    method Drain(res0: int, outcomes: nat -> Outcome) returns (res: int)
      requires DistinctNumbers(queue) && NotEarlier(queue, mseqR) && res0 >= 0
      modifies this
      ensures res >= 0 && open ==> Valid()
      ensures old(delivered) <= delivered && mseqR >= old(mseqR)
      ensures forall k :: |old(delivered)| <= k < |delivered| ==> old(mseqR) <= delivered[k].seqno <= mseqR
      ensures Kept(|old(delivered)|) == Held(old(queue))
      ensures old(open) && (forall k :: outcomes(k) == Advance) ==>
        && res >= 0 && open && Numbered(delivered[|old(delivered)|..], old(mseqR), mseqR)
        && forall n :: Known(n) <==> old(Known(n))
    {
      hide DistinctNumbers, Numbered;
      res := res0;
      ghost var d := |delivered|;
      NumberedNone(mseqR);
      assert delivered[d..] == [];
      var next, count := true, 1;
      while next && open
        invariant res >= 0 && DistinctNumbers(queue) && NotEarlier(queue, mseqR) && mseqR >= old(mseqR)
        invariant !next ==> Later(queue, mseqR)
        invariant old(delivered) <= delivered && Kept(d) == Held(old(queue))
        invariant forall k :: d <= k < |delivered| ==> old(mseqR) <= delivered[k].seqno <= mseqR
        invariant old(open) && (forall k :: outcomes(k) == Advance) ==>
          open && Numbered(delivered[d..], old(mseqR), mseqR) && forall n :: Known(n) <==> old(Known(n))
        decreases |queue|, if next then 1 else 0
      {
        next := false;
        var i := Find(mseqR);
        if i < |queue| {
          ghost var was, p := delivered, queue[i];
          if Numbered(was[d..], old(mseqR), mseqR) {
            NumberedSnoc(was[d..], p, old(mseqR), mseqR);
          }
          next := true;
          res := HandleBuffered(i, outcomes(count));
          assert delivered[d..] == was[d..] + [p];
          count := count + 1;
          if res < 0 {
            return;
          }
        }
      }
    }
  }
}
