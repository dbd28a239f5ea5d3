/** dtls.c: an end that connects has checked the other. */
module Authentication {
  import opened Bytes
  import opened PeerState
  import opened Handshake

  // ---- the check of the peer's Finished ----

  /** Sending changes the phase to the one that is due, or fails. */
  lemma Sent(e: End, recs: seq<Rec>, c: Choice, done: Phase)
    ensures var t := Emit(e, recs, c, done).end;
      t.phase == (if c.sent < |recs| then Failed else done) && t.role == e.role && t.suite == e.suite && t.auth == e.auth
      && t.pre == e.pre
  {
    hide Hs;
  }

  lemma GreetDoesNotConnect(env: Env, e: End, m: Msg, c: Choice)
    requires e.phase != Connected
    ensures Greet(env, e, m, c).end.phase != Connected
  {
    hide Hs, Emit, ServerFlight;
    var e' := e.(suite := c.suite, hash := [m], mseqR := m.seqno + 1, mseqS := 1);
    Sent(e', ServerFlight(e', c), c, if c.suite == EcdsaSuite && e.auth then WaitClientCert else WaitClientKey);
  }

  lemma OthersDoNotConnect(env: Env, e: End, m: Msg, c: Choice)
    requires m.kind != Finished
    ensures Handle(env, e, m, c).end.phase != Connected
  {
    hide Hs, Emit, ClientFlight, Master;
    var e' := e.(hash := e.hash + [m], mseqR := e.mseqR + 1);
    Sent(e.(hash := [], mseqR := e.mseqR + 1), [Hand(Msg(ClientHello, e.mseqS, c.bodies(ClientHello)))], c, WaitHello);
    Sent(e', ClientFlight(env, e', c), Sendable(e', c), WaitCcs);
  }

  lemma FinishedConnects(env: Env, e: End, m: Msg, c: Choice)
    requires m.kind == Finished
    ensures Handle(env, e, m, c).end.phase == Connected <==>
      && e.phase == WaitFinished
      && m.body == env.verify(if |e.hash| < 2 then [] else env.master(e.pre, e.hash[0].body, e.hash[1].body), Other(e.role), e.hash)
      && (e.role == Server ==> c.sent >= 2)
  {
    hide Hs, Emit;
    var e' := e.(hash := e.hash + [m]);
    Sent(e', FinishedRecs(env, e', []), c, Connected);
  }

  /** A record connects an end exactly when the end waits for a Finished, and the record is the
      expected Finished with the verify data of the other role under the end's own master secret;
      a server must also get its own two records out. */
  lemma ConnectsIffVerified(env: Env, e: End, r: Rec, c: Choice)
    requires !Over(e)
    ensures Receive(env, e, r, c).end.phase == Connected <==>
      && e.phase == WaitFinished && r.Hand? && r.msg.kind == Finished && r.msg.seqno == e.mseqR
      && r.msg.body == env.verify(if |e.hash| < 2 then [] else env.master(e.pre, e.hash[0].body, e.hash[1].body),
                                  Other(e.role), e.hash)
      && (e.role == Server ==> c.sent >= 2)
  {
    hide Hs, Handle, Greet;
    if r.Hand? {
      GreetDoesNotConnect(env, e, r.msg, c);
      if r.msg.kind == Finished {
        FinishedConnects(env, e, r.msg, c);
      } else {
        OthersDoNotConnect(env, e, r.msg, c);
      }
    }
  }

  ghost predicate MasterInjective(env: Env) {
    forall p, q, a, b :: env.master(p, a, b) == env.master(q, a, b) ==> p == q
  }

  ghost predicate VerifyInjective(env: Env) {
    forall m, n, role, h :: env.verify(m, role, h) == env.verify(n, role, h) ==> m == n
  }

  ghost predicate ExpandInjective(env: Env) {
    forall m, n, a, b :: env.expand(m, a, b) == env.expand(n, a, b) ==> m == n
  }

  lemma SameMasterSamePre(env: Env, p: seq<Byte>, q: seq<Byte>, hash: seq<Msg>)
    requires MasterInjective(env) && |hash| >= 2 && Master(env, p, hash) == Master(env, q, hash)
    ensures p == q
  {
    assert env.master(p, hash[0].body, hash[1].body) == env.master(q, hash[0].body, hash[1].body);
  }

  /** The key block depends on the pre-master secret. */
  lemma KeyBlockDepends(env: Env, p: seq<Byte>, q: seq<Byte>, hash: seq<Msg>)
    requires MasterInjective(env) && ExpandInjective(env) && |hash| >= 2
    ensures KeyBlockOf(env, p, hash) == KeyBlockOf(env, q, hash) <==> p == q
  {
    hide Master;
    if KeyBlockOf(env, p, hash) == KeyBlockOf(env, q, hash) {
      assert env.expand(Master(env, p, hash), hash[0].body, hash[1].body)
          == env.expand(Master(env, q, hash), hash[0].body, hash[1].body);
      SameMasterSamePre(env, p, q, hash);
    }
  }

  // ---- different pre-master secrets ----

  predicate NoneConnected(g: State) {
    g.c.phase != Connected && g.s.phase != Connected
  }

  lemma ClientStaysOut(env: Env, g: State, c: Choice)
    requires Inv(env, g) && g.toC != [] && !Over(g.c)
    requires MasterInjective(env) && VerifyInjective(env) && g.c.pre != g.s.pre
    ensures Receive(env, g.c, g.toC[0], c).end.phase != Connected
  {
    hide Before, ServerAhead, ClientAhead, ClientDone, ServerDone, Receive, Master, MasterInjective, VerifyInjective;
    ConnectsIffVerified(env, g.c, g.toC[0], c);
    if Receive(env, g.c, g.toC[0], c).end.phase == Connected {
      ClientCheckSucceeds(env, g);
      MasterIs(env, g.c);
      VerifiedAlike(env, g.s.pre, g.c.pre, Server, g.c.hash);
    }
  }

  lemma ServerStaysOut(env: Env, g: State, c: Choice)
    requires Inv(env, g) && g.toS != [] && !Over(g.s)
    requires MasterInjective(env) && VerifyInjective(env) && g.c.pre != g.s.pre
    ensures Receive(env, g.s, g.toS[0], c).end.phase != Connected
  {
    hide Before, ServerAhead, ClientAhead, ClientDone, ServerDone, Receive, Master, MasterInjective, VerifyInjective;
    ConnectsIffVerified(env, g.s, g.toS[0], c);
    if Receive(env, g.s, g.toS[0], c).end.phase == Connected {
      ServerCheckSucceeds(env, g);
      MasterIs(env, g.s);
      VerifiedAlike(env, g.c.pre, g.s.pre, Client, g.s.hash);
    }
  }

  lemma StepConnectsNone(env: Env, g: State, e: Event)
    requires Inv(env, g) && NoneConnected(g) && MasterInjective(env) && VerifyInjective(env) && g.c.pre != g.s.pre
    ensures NoneConnected(Step(env, g, e))
  {
    hide Inv, Receive, Master, MasterInjective, VerifyInjective;
    match e
    case Connect(_) =>
    case AtClient(c) =>
      if g.toC != [] {
        if Over(g.c) {
          OverStays(env, g.c, g.toC[0], c);
        } else {
          ClientStaysOut(env, g, c);
        }
      }
    case AtServer(c) =>
      if g.toS != [] {
        if Over(g.s) {
          OverStays(env, g.s, g.toS[0], c);
        } else {
          ServerStaysOut(env, g, c);
        }
      }
  }

  lemma MasterIs(env: Env, e: End)
    ensures Master(env, e.pre, e.hash) == if |e.hash| < 2 then [] else env.master(e.pre, e.hash[0].body, e.hash[1].body)
  {
  }

  lemma OverStays(env: Env, e: End, r: Rec, c: Choice)
    requires Over(e)
    ensures Receive(env, e, r, c).end == e
  {
  }

  lemma VerifiedAlike(env: Env, p: seq<Byte>, q: seq<Byte>, role: Role, hash: seq<Msg>)
    requires MasterInjective(env) && VerifyInjective(env) && |hash| >= 2
    requires env.verify(Master(env, p, hash), role, hash) == env.verify(Master(env, q, hash), role, hash)
    ensures p == q
  {
    hide Master;
    SameMasterSamePre(env, p, q, hash);
  }

  lemma PreOfHandle(env: Env, e: End, m: Msg, c: Choice)
    ensures Handle(env, e, m, c).end.pre == e.pre
  {
    hide Hs, Emit, ClientFlight, Master;
    var e1, e2 := e.(hash := e.hash + [m]), e.(hash := e.hash + [m], mseqR := e.mseqR + 1);
    Sent(e.(hash := [], mseqR := e.mseqR + 1), [Hand(Msg(ClientHello, e.mseqS, c.bodies(ClientHello)))], c, WaitHello);
    Sent(e2, ClientFlight(env, e2, c), Sendable(e2, c), WaitCcs);
    Sent(e1, FinishedRecs(env, e1, []), c, Connected);
  }

  lemma PreOfReceive(env: Env, e: End, r: Rec, c: Choice)
    ensures Receive(env, e, r, c).end.pre == e.pre
  {
    hide Hs, Emit, ServerFlight, Handle;
    if r.Hand? {
      var m := r.msg;
      var e' := e.(suite := c.suite, hash := [m], mseqR := m.seqno + 1, mseqS := 1);
      Sent(e', ServerFlight(e', c), c, if c.suite == EcdsaSuite && e.auth then WaitClientCert else WaitClientKey);
      PreOfHandle(env, e, m, c);
    }
  }

  lemma PreStays(env: Env, g: State, e: Event)
    ensures Step(env, g, e).c.pre == g.c.pre && Step(env, g, e).s.pre == g.s.pre
  {
    hide Receive;
    match e
    case Connect(_) =>
    case AtClient(c) =>
      if g.toC != [] {
        PreOfReceive(env, g.c, g.toC[0], c);
      }
    case AtServer(c) =>
      if g.toS != [] {
        PreOfReceive(env, g.s, g.toS[0], c);
      }
  }

  /** With different pre-master secrets no run connects either end. */
  lemma {:induction false} NoneConnects(env: Env, g: State, events: seq<Event>)
    requires Init(g) && MasterInjective(env) && VerifyInjective(env) && g.c.pre != g.s.pre
    ensures var t := Run(env, g, events); NoneConnected(t) && t.c.pre == g.c.pre && t.s.pre == g.s.pre
  {
    hide Inv, Step, MasterInjective, VerifyInjective;
    if events != [] {
      var was, e := events[..|events| - 1], events[|events| - 1];
      NoneConnects(env, g, was);
      TranscriptsAgree(env, g, was);
      StepConnectsNone(env, Run(env, g, was), e);
      PreStays(env, Run(env, g, was), e);
    }
  }

  // ---- one end, and any records at all ----

  datatype Delivery = Delivery(rec: Rec, choice: Choice)

  /** One end after records that anyone may have made. */
  function EndRun(env: Env, e: End, ds: seq<Delivery>): End {
    if ds == [] then e
    else
      var d := ds[|ds| - 1];
      Receive(env, EndRun(env, e, ds[..|ds| - 1]), d.rec, d.choice).end
  }

  datatype Mark = Did(kind: Kind) | Switched

  function MarkOf(r: Rec): Mark {
    if r.Ccs? then Switched else Did(r.msg.kind)
  }

  /** The record is the next one and its contents pass the check that is due for its kind. */
  predicate Passes(env: Env, e: End, d: Delivery) {
    if d.rec.Ccs? then d.choice.ok
    else
      var m, c := d.rec.msg, d.choice;
      if m.kind == ClientHello then env.hasCookie(m.body) && c.valid && c.ok && c.suite != NoSuite
      else
        && m.seqno == e.mseqR
        && match m.kind
           case ServerHello => c.ok && env.suiteOf(m.body) != NoSuite
           case ServerHelloDone => true
           case Finished => m.body == env.verify(Master(env, e.pre, e.hash), Other(e.role), e.hash)
           case _ => c.ok
  }

  /** What has passed its check, in the order in which it came. */
  function Passed(env: Env, e: End, ds: seq<Delivery>): seq<Mark> {
    if ds == [] then []
    else
      var n := |ds| - 1;
      Passed(env, e, ds[..n]) + if Passes(env, EndRun(env, e, ds[..n]), ds[n]) then [MarkOf(ds[n].rec)] else []
  }

  /** All of a, in this order, occurs in b. */
  predicate Within(a: seq<Mark>, b: seq<Mark>) {
    a == [] ||
    (b != [] && if a[|a| - 1] == b[|b| - 1] then Within(a[..|a| - 1], b[..|b| - 1]) else Within(a, b[..|b| - 1]))
  }

  lemma {:induction false} WithinMore(a: seq<Mark>, b: seq<Mark>, x: Mark)
    requires Within(a, b)
    ensures Within(a, b + [x])
    decreases |b|, 1
  {
    assert (b + [x])[..|b|] == b;
    if a != [] {
      WithinLess(a, b);
    }
  }

  lemma {:induction false} WithinLess(a: seq<Mark>, b: seq<Mark>)
    requires a != [] && Within(a, b)
    ensures Within(a[..|a| - 1], b)
    decreases |b|, 0
  {
    var b', x := b[..|b| - 1], b[|b| - 1];
    assert b == b' + [x];
    if a[|a| - 1] != x {
      WithinLess(a, b');
    }
    WithinMore(a[..|a| - 1], b', x);
  }

  lemma WithinBoth(a: seq<Mark>, b: seq<Mark>, x: Mark)
    requires Within(a, b)
    ensures Within(a + [x], b + [x])
  {
    assert (a + [x])[..|a|] == a && (b + [x])[..|b|] == b;
  }

  /** What the server has to show, by suite, before its ServerHelloDone. */
  function ServerShows(suite: Suite): seq<Mark> {
    [Did(ServerHello)] + if suite == EcdsaSuite then [Did(Certificate), Did(ServerKeyExchange)] else []
  }

  /** What an end must have checked by the time it is in its phase. */
  function Needed(e: End): seq<Mark> {
    var asked := e.suite == EcdsaSuite && e.auth;
    var keyed := [Did(ClientHello)] + (if asked then [Did(Certificate)] else []) + [Did(ClientKeyExchange)]
                 + (if asked then [Did(CertificateVerify)] else []);
    var before := if e.role == Client then ServerShows(e.suite) + [Did(ServerHelloDone)] else keyed;
    match e.phase
    case WaitCert => [Did(ServerHello)]
    case WaitKeyExchange => [Did(ServerHello), Did(Certificate)]
    case WaitHelloDone => if e.suite == NoSuite then [] else ServerShows(e.suite)
    case WaitClientCert => [Did(ClientHello)]
    case WaitClientKey => [Did(ClientHello)] + if asked then [Did(Certificate)] else []
    case WaitVerify => [Did(ClientHello), Did(Certificate), Did(ClientKeyExchange)]
    case WaitCcs => before
    case WaitFinished => before + [Switched]
    case Connected => before + [Switched, Did(Finished)]
    case _ => []
  }

  /** The phases of a role, and the suite they go with. */
  predicate Shape(e: End) {
    && (e.role == Client ==> e.phase !in {Idle, WaitClientCert, WaitClientKey, WaitVerify})
    && (e.role == Server ==> e.phase !in {WaitHello, WaitCert, WaitKeyExchange, WaitHelloDone})
    && (e.phase == WaitHello ==> e.suite == NoSuite)
    && (e.phase in {WaitCert, WaitKeyExchange} ==> e.suite == EcdsaSuite)
    && (e.phase in {WaitClientCert, WaitVerify} ==> e.suite == EcdsaSuite && e.auth)
    && (e.phase in {WaitClientKey, WaitCcs, WaitFinished, Connected} ==> e.suite != NoSuite)
  }

  /** An end that has not failed has seen what its phase needs. */
  predicate OnPath(e: End, passed: seq<Mark>) {
    e.phase != Failed ==> Shape(e) && Within(Needed(e), passed)
  }

  /** The next state has failed, asks for no more than before, or asks for the mark that passed. */
  predicate GoesOn(env: Env, e: End, d: Delivery, t: End) {
    t.phase == Failed || (Shape(t) && (Needed(t) == Needed(e) || (Needed(t) == Needed(e) + [MarkOf(d.rec)] && Passes(env, e, d))))
  }

  lemma ServerMessages(env: Env, e: End, d: Delivery)
    requires Shape(e) && !Over(e) && e.phase != Idle && d.rec.Hand? && d.rec.msg.seqno == e.mseqR
    requires d.rec.msg.kind in {HelloVerify, ServerHello, Certificate, ServerKeyExchange, CertificateRequest}
    ensures GoesOn(env, e, d, Handle(env, e, d.rec.msg, d.choice).end)
  {
    hide Emit, Hs;
    var c := d.choice;
    assert [Did(ServerHello)] + [] == [] + [Did(ServerHello)];
    assert [Did(ServerHello)] + [Did(Certificate), Did(ServerKeyExchange)]
        == [Did(ServerHello), Did(Certificate)] + [Did(ServerKeyExchange)];
    Sent(e.(hash := [], mseqR := e.mseqR + 1), [Hand(Msg(ClientHello, e.mseqS, c.bodies(ClientHello)))], c, WaitHello);
  }

  lemma HelloDone(env: Env, e: End, d: Delivery)
    requires Shape(e) && !Over(e) && d.rec.Hand? && d.rec.msg.seqno == e.mseqR && d.rec.msg.kind == ServerHelloDone
    ensures GoesOn(env, e, d, Handle(env, e, d.rec.msg, d.choice).end)
  {
    hide Emit, Hs, ClientFlight, Accept, FinishedRecs, Master;
    var e' := e.(hash := e.hash + [d.rec.msg], mseqR := e.mseqR + 1);
    var recs := ClientFlight(env, e', d.choice);
    ClientFlightFacts(env, e', d.choice);
    Sent(e', recs, Sendable(e', d.choice), WaitCcs);
  }

  lemma ClientMessages(env: Env, e: End, d: Delivery)
    requires Shape(e) && !Over(e) && d.rec.Hand? && d.rec.msg.seqno == e.mseqR
    requires d.rec.msg.kind in {ClientKeyExchange, CertificateVerify, Finished, ClientHello}
    ensures GoesOn(env, e, d, Handle(env, e, d.rec.msg, d.choice).end)
  {
    hide Emit, Hs, Master;
    var e' := e.(hash := e.hash + [d.rec.msg]);
    Sent(e', FinishedRecs(env, e', []), d.choice, Connected);
  }

  lemma Greets(env: Env, e: End, d: Delivery)
    requires Shape(e) && e.phase == Idle && d.rec.Hand?
    ensures GoesOn(env, e, d, Greet(env, e, d.rec.msg, d.choice).end)
  {
    hide Emit, Hs, ServerFlight;
    var c, m := d.choice, d.rec.msg;
    var e' := e.(suite := c.suite, hash := [m], mseqR := m.seqno + 1, mseqS := 1);
    Sent(e', ServerFlight(e', c), c, if c.suite == EcdsaSuite && e.auth then WaitClientCert else WaitClientKey);
  }

  lemma StepNeeds(env: Env, e: End, d: Delivery)
    requires Shape(e) && !Over(e)
    ensures GoesOn(env, e, d, Receive(env, e, d.rec, d.choice).end)
  {
    hide Handle, Greet, GoesOn;
    if d.rec.Ccs? {
      SwitchNeeds(env, e, d);
    } else if e.phase == Idle {
      Greets(env, e, d);
      Unchanged(env, e, d);
    } else if d.rec.msg.seqno != e.mseqR {
      Unchanged(env, e, d);
    } else if d.rec.msg.kind in {HelloVerify, ServerHello, Certificate, ServerKeyExchange, CertificateRequest} {
      ServerMessages(env, e, d);
    } else if d.rec.msg.kind == ServerHelloDone {
      HelloDone(env, e, d);
    } else {
      ClientMessages(env, e, d);
    }
  }

  lemma Unchanged(env: Env, e: End, d: Delivery)
    requires Shape(e)
    ensures GoesOn(env, e, d, e)
  {
  }

  lemma SwitchNeeds(env: Env, e: End, d: Delivery)
    requires Shape(e) && !Over(e) && d.rec.Ccs?
    ensures GoesOn(env, e, d, Receive(env, e, d.rec, d.choice).end)
  {
  }

  lemma StepOnPath(env: Env, e: End, d: Delivery, passed: seq<Mark>)
    requires OnPath(e, passed)
    ensures OnPath(Receive(env, e, d.rec, d.choice).end, passed + if Passes(env, e, d) then [MarkOf(d.rec)] else [])
  {
    hide Receive, Within, Shape, Needed, Passes;
    if Over(e) {
      OverStays(env, e, d.rec, d.choice);
    } else {
      StepNeeds(env, e, d);
    }
    if e.phase != Failed {
      WithinMore(Needed(e), passed, MarkOf(d.rec));
      WithinBoth(Needed(e), passed, MarkOf(d.rec));
    }
    assert passed + [] == passed;
  }

  /** Before the first record: a client that has sent its ClientHello, a server without a peer. */
  predicate Fresh(e: End) {
    e.suite == NoSuite && e.phase == if e.role == Client then WaitHello else Idle
  }

  /** Whatever records reach an end, in whatever order and from whomever: if it connects, every
      message and switch that its suite asks for has come, in order, and has passed its check. */
  lemma {:induction false} NothingSkipped(env: Env, e: End, ds: seq<Delivery>)
    requires Fresh(e)
    ensures OnPath(EndRun(env, e, ds), Passed(env, e, ds))
    ensures var t := EndRun(env, e, ds); t.phase == Connected ==> t.suite != NoSuite && Within(Needed(t), Passed(env, e, ds))
  {
    hide Receive, Passes, Within;
    if ds == [] {
      EmptyWithin([]);
    } else {
      var n := |ds| - 1;
      NothingSkipped(env, e, ds[..n]);
      StepOnPath(env, EndRun(env, e, ds[..n]), ds[n], Passed(env, e, ds[..n]));
    }
  }

  lemma EmptyWithin(b: seq<Mark>)
    ensures Within([], b)
  {
  }
}
