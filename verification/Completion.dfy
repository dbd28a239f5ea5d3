/** dtls.c: a handshake without failures completes. */
module Completion {
  import opened Bytes
  import opened PeerState
  import opened Handshake

  /** All checks succeed, everything is sent, the client offers a cookie, and the ServerHello
      names the suite the server has chosen. */
  predicate Good(env: Env, c: Choice) {
    && c.ok && c.valid && c.sent > 8 && c.suite != NoSuite
    && env.hasCookie(c.bodies(ClientHello)) && env.suiteOf(c.bodies(ServerHello)) == c.suite
  }

  predicate GoodEvent(env: Env, e: Event) {
    match e
    case Connect(_) => true
    case AtClient(c) => Good(env, c)
    case AtServer(c) => Good(env, c)
  }

  // ---- what an end can take ----

  /** A client in this phase takes these records one after the other, the last one being the
      server's ServerHelloDone. */
  predicate ClientTakes(env: Env, phase: Phase, suite: Suite, recs: seq<Rec>)
    decreases |recs|
  {
    recs != [] && recs[0].Hand? &&
    var m, rest := recs[0].msg, recs[1..];
    match m.kind
    case ServerHello =>
      var s := env.suiteOf(m.body);
      phase == WaitHello && s != NoSuite && ClientTakes(env, if s == EcdsaSuite then WaitCert else WaitHelloDone, s, rest)
    case Certificate => phase == WaitCert && suite != NoSuite && ClientTakes(env, WaitKeyExchange, suite, rest)
    case ServerKeyExchange =>
      suite != NoSuite && phase == (if suite == EcdsaSuite then WaitKeyExchange else WaitHelloDone)
      && ClientTakes(env, WaitHelloDone, suite, rest)
    case CertificateRequest => phase == WaitHelloDone && suite != NoSuite && ClientTakes(env, WaitHelloDone, suite, rest)
    case ServerHelloDone => phase == WaitHelloDone && suite != NoSuite && rest == []
    case _ => false
  }

  /** A server in this phase takes these records, the last one being the client's Finished. */
  predicate ServerTakes(phase: Phase, verifies: bool, recs: seq<Rec>)
    decreases |recs|
  {
    recs != [] &&
    var rest := recs[1..];
    if recs[0].Ccs? then phase == WaitCcs && ServerTakes(WaitFinished, verifies, rest)
    else
      match recs[0].msg.kind
      case Certificate => phase == WaitClientCert && ServerTakes(WaitClientKey, verifies, rest)
      case ClientKeyExchange => phase == WaitClientKey && ServerTakes(if verifies then WaitVerify else WaitCcs, verifies, rest)
      case CertificateVerify => phase == WaitVerify && ServerTakes(WaitCcs, verifies, rest)
      case Finished => phase == WaitFinished && rest == []
      case _ => false
  }

  /** Whether the server asks for the client's certificate. */
  predicate Verifies(e: End) {
    e.suite == EcdsaSuite && e.auth
  }

  predicate Asks(recs: seq<Rec>) {
    exists i :: 0 <= i < |recs| && IsKind(recs[i], CertificateRequest)
  }

  // ---- the stages ----

  predicate Greeting(env: Env, g: State) {
    && Before(env, g) && !g.c.auth && (g.c.phase == Idle || g.c.phase == WaitHello)
    && (g.c.phase == WaitHello ==> |g.toS| + |g.toC| == 1)
    && (g.toC != [] ==> g.c.mseqR == 0)
    && (g.toS != [] && !env.hasCookie(g.toS[0].msg.body) ==> g.c.mseqR == 0)
  }

  predicate ServerSpeaks(env: Env, g: State) {
    && ServerAhead(env, g) && ClientTakes(env, g.c.phase, g.c.suite, g.toC)
    && (g.c.auth || Asks(g.toC) <==> Verifies(g.s))
    && g.s.phase == if Verifies(g.s) then WaitClientCert else WaitClientKey
  }

  predicate ClientSpeaks(env: Env, g: State) {
    ClientAhead(env, g) && g.c.phase == WaitCcs && ServerTakes(g.s.phase, Verifies(g.s), g.toS)
  }

  predicate ServerCloses(env: Env, g: State) {
    && ServerAhead(env, g) && g.s.phase == Connected && |g.c.hash| >= 2
    && if g.c.phase == WaitCcs then |g.toC| == 2 && g.toC[0].Ccs? && IsKind(g.toC[1], Finished)
       else g.c.phase == WaitFinished && |g.toC| == 1 && IsKind(g.toC[0], Finished)
  }

  predicate BothConnected(g: State) {
    && g.c.phase == g.s.phase == Connected && g.toC == [] && g.toS == []
    && |g.c.hash| >= 2 && |g.s.hash| >= 2
  }

  predicate Fine(env: Env, g: State) {
    && g.c.pre == g.s.pre && g.c.role == Client && g.s.role == Server
    && (Greeting(env, g) || ServerSpeaks(env, g) || ClientSpeaks(env, g) || ServerCloses(env, g) || BothConnected(g))
  }

  /** How far the handshake is from its end. */
  function Left(env: Env, g: State): nat {
    if g.c.phase == Idle then 40
    else if g.s.phase == Idle then
      if g.toC != [] then 38 else if g.toS != [] && g.toS[0].Hand? && env.hasCookie(g.toS[0].msg.body) then 37 else 39
    else if g.s.phase == Connected then |g.toC|
    else if g.toS != [] then 8 + |g.toS|
    else 20 + |g.toC|
  }

  // ---- flights that are sent as a whole ----

  lemma EmitAll(e: End, recs: seq<Rec>, c: Choice, done: Phase)
    requires c.sent >= |recs|
    ensures var o := Emit(e, recs, c, done);
      o.out == recs && o.end == e.(hash := e.hash + Hs(recs), mseqS := e.mseqS + |Hs(recs)|, phase := done)
  {
    hide Hs;
    assert recs[..|recs|] == recs;
  }

  lemma ClientTakesFirst(env: Env, phase: Phase, suite: Suite, m: Msg, rest: seq<Rec>)
    requires ClientTakes(env, phase, suite, [Hand(m)] + rest)
      || (m.kind == ServerHello && phase == WaitHello && env.suiteOf(m.body) != NoSuite
          && ClientTakes(env, if env.suiteOf(m.body) == EcdsaSuite then WaitCert else WaitHelloDone, env.suiteOf(m.body), rest))
      || (m.kind == Certificate && phase == WaitCert && suite != NoSuite && ClientTakes(env, WaitKeyExchange, suite, rest))
      || (m.kind == ServerKeyExchange && suite != NoSuite && phase == (if suite == EcdsaSuite then WaitKeyExchange else WaitHelloDone)
          && ClientTakes(env, WaitHelloDone, suite, rest))
      || (m.kind == CertificateRequest && phase == WaitHelloDone && suite != NoSuite && ClientTakes(env, WaitHelloDone, suite, rest))
      || (m.kind == ServerHelloDone && phase == WaitHelloDone && suite != NoSuite && rest == [])
    ensures ClientTakes(env, phase, suite, [Hand(m)] + rest)
  {
    assert ([Hand(m)] + rest)[1..] == rest;
  }

  lemma ServerFlightTaken(env: Env, e: End, c: Choice)
    requires Good(env, c) && e.suite == c.suite
    ensures ClientTakes(env, WaitHello, NoSuite, ServerFlight(e, c)) && |ServerFlight(e, c)| <= 5
    ensures Asks(ServerFlight(e, c)) <==> Verifies(e)
  {
    hide ServerFlight, ClientTakes;
    var recs := ServerFlight(e, c);
    var n := |recs|;
    ServerFlightShape(e, c);
    assert recs == [recs[0]] + recs[1..] && recs[n - 1..] == [recs[n - 1]] + [];
    ClientTakesFirst(env, WaitHelloDone, c.suite, recs[n - 1].msg, []);
    if c.suite == EcdsaSuite {
      if e.auth {
        assert recs[3..] == [recs[3]] + recs[4..];
        ClientTakesFirst(env, WaitHelloDone, c.suite, recs[3].msg, recs[4..]);
        assert IsKind(recs[3], CertificateRequest);
      }
      assert recs[2..] == [recs[2]] + recs[3..] && recs[1..] == [recs[1]] + recs[2..];
      ClientTakesFirst(env, WaitKeyExchange, c.suite, recs[2].msg, recs[3..]);
      ClientTakesFirst(env, WaitCert, c.suite, recs[1].msg, recs[2..]);
    } else if c.hint {
      assert recs[1..] == [recs[1]] + recs[2..];
      ClientTakesFirst(env, WaitHelloDone, c.suite, recs[1].msg, recs[2..]);
    }
    ClientTakesFirst(env, WaitHello, NoSuite, recs[0].msg, recs[1..]);
  }

  /** The kinds of the server's flight, one by one. */
  lemma ServerFlightShape(e: End, c: Choice)
    requires e.suite == c.suite != NoSuite
    ensures var recs := ServerFlight(e, c);
      var n := if e.suite == EcdsaSuite then (if e.auth then 5 else 4) else if c.hint then 3 else 2;
      && |recs| == n && (forall i :: 0 <= i < n ==> recs[i].Hand?)
      && recs[0].msg.kind == ServerHello && recs[0].msg.body == c.bodies(ServerHello) && recs[n - 1].msg.kind == ServerHelloDone
      && (e.suite == EcdsaSuite ==> recs[1].msg.kind == Certificate && recs[2].msg.kind == ServerKeyExchange)
      && (e.suite == EcdsaSuite && e.auth ==> recs[3].msg.kind == CertificateRequest)
      && (e.suite == PskSuite && c.hint ==> recs[1].msg.kind == ServerKeyExchange)
  {
  }

  lemma ServerTakesFirst(phase: Phase, verifies: bool, r: Rec, rest: seq<Rec>)
    requires (r.Ccs? && phase == WaitCcs && ServerTakes(WaitFinished, verifies, rest))
      || (IsKind(r, Certificate) && phase == WaitClientCert && ServerTakes(WaitClientKey, verifies, rest))
      || (IsKind(r, ClientKeyExchange) && phase == WaitClientKey && ServerTakes(if verifies then WaitVerify else WaitCcs, verifies, rest))
      || (IsKind(r, CertificateVerify) && phase == WaitVerify && ServerTakes(WaitCcs, verifies, rest))
      || (IsKind(r, Finished) && phase == WaitFinished && rest == [])
    ensures ServerTakes(phase, verifies, [r] + rest)
  {
    assert ([r] + rest)[1..] == rest;
  }

  lemma ClientFlightTaken(env: Env, e: End, c: Choice)
    ensures var recs := ClientFlight(env, e, c);
      |recs| <= 5 && ServerTakes(if e.auth then WaitClientCert else WaitClientKey, e.auth, recs)
  {
    hide ClientFlight, ServerTakes;
    var recs := ClientFlight(env, e, c);
    var n := |recs|;
    ClientFlightShape(env, e, c);
    ServerTakesFirst(WaitFinished, e.auth, recs[n - 1], []);
    assert recs[n - 1..] == [recs[n - 1]] + [] && recs[n - 2..] == [recs[n - 2]] + recs[n - 1..];
    ServerTakesFirst(WaitCcs, e.auth, recs[n - 2], recs[n - 1..]);
    if e.auth {
      assert recs[2..] == [recs[2]] + recs[3..] && recs[1..] == [recs[1]] + recs[2..] && recs == [recs[0]] + recs[1..];
      ServerTakesFirst(WaitVerify, e.auth, recs[2], recs[3..]);
      ServerTakesFirst(WaitClientKey, e.auth, recs[1], recs[2..]);
      ServerTakesFirst(WaitClientCert, e.auth, recs[0], recs[1..]);
    } else {
      assert recs == [recs[0]] + recs[1..];
      ServerTakesFirst(WaitClientKey, e.auth, recs[0], recs[1..]);
    }
  }

  lemma ClientFlightShape(env: Env, e: End, c: Choice)
    ensures var recs := ClientFlight(env, e, c);
      var n := if e.auth then 5 else 3;
      && |recs| == n && recs[n - 2].Ccs? && IsKind(recs[n - 1], Finished)
      && (e.auth ==> IsKind(recs[0], Certificate) && IsKind(recs[1], ClientKeyExchange) && IsKind(recs[2], CertificateVerify))
      && (!e.auth ==> IsKind(recs[0], ClientKeyExchange))
  {
    hide VerifyData;
  }

  // ---- every step, stage by stage ----

  lemma GreetingConnects(env: Env, g: State, body: seq<Byte>)
    requires Fine(env, g) && Greeting(env, g)
    ensures var t := Step(env, g, Connect(body)); Fine(env, t) && Left(env, t) <= Left(env, g)
  {
    var t := Step(env, g, Connect(body));
    assert Greeting(env, t);
  }

  lemma GreetingAtClient(env: Env, g: State, c: Choice)
    requires Fine(env, g) && Greeting(env, g) && Good(env, c) && g.toC != []
    ensures var t := Step(env, g, AtClient(c)); Fine(env, t) && Left(env, t) < Left(env, g)
  {
    hide Numbered, FinishedFits, Hs, ClientFlight, FinishedRecs, VerifyData, Greet, ServerAhead, ClientAhead, ClientTakes, ServerTakes;
    BeforeAtClient(env, g, c);
    SameServer(env, g, c);
    var t := Step(env, g, AtClient(c));
    EmitAll(g.c.(hash := [], mseqR := g.c.mseqR + 1), [Hand(Msg(ClientHello, g.c.mseqS, c.bodies(ClientHello)))], c, WaitHello);
    assert Greeting(env, t);
  }

  lemma GreetingAtServer(env: Env, g: State, c: Choice)
    requires Fine(env, g) && Greeting(env, g) && Good(env, c) && g.toS != []
    ensures var t := Step(env, g, AtServer(c)); Fine(env, t) && Left(env, t) < Left(env, g)
  {
    hide Numbered, FinishedFits, Hs, ServerFlight, Emit, ServerAhead, ClientAhead, ClientTakes, ServerTakes;
    var m, t := g.toS[0].msg, Step(env, g, AtServer(c));
    assert g.toS[1..] == [] && g.toC == [];
    if env.hasCookie(m.body) {
      Greeted(env, g, c);
      var e' := g.s.(suite := c.suite, hash := [m], mseqR := m.seqno + 1, mseqS := 1);
      ServerFlightTaken(env, e', c);
      EmitAll(e', ServerFlight(e', c), c, if c.suite == EcdsaSuite && g.s.auth then WaitClientCert else WaitClientKey);
      assert t.toC == ServerFlight(e', c) && t.c == g.c && Verifies(t.s) == Verifies(e');
      assert ServerSpeaks(env, t);
    } else {
      assert Greeting(env, t);
    }
  }

  lemma AsksRest(recs: seq<Rec>)
    requires recs != []
    ensures Asks(recs) <==> IsKind(recs[0], CertificateRequest) || Asks(recs[1..])
  {
    if Asks(recs) && !IsKind(recs[0], CertificateRequest) {
      var i :| 0 <= i < |recs| && IsKind(recs[i], CertificateRequest);
      assert IsKind(recs[1..][i - 1], CertificateRequest);
    }
    if Asks(recs[1..]) {
      var i :| 0 <= i < |recs| - 1 && IsKind(recs[1..][i], CertificateRequest);
      assert IsKind(recs[i + 1], CertificateRequest);
    }
  }

  lemma ServerSpeaksAtClient(env: Env, g: State, c: Choice)
    requires Fine(env, g) && ServerSpeaks(env, g) && Good(env, c)
    ensures var t := Step(env, g, AtClient(c)); Fine(env, t) && Left(env, t) < Left(env, g)
  {
    hide Numbered, FinishedFits, Hs, ClientFlight, Emit, ClientAhead, ServerTakes, Asks;
    SeqnoExpected(g.toC, g.c.mseqR);
    AsksRest(g.toC);
    var m, t := g.toC[0].msg, Step(env, g, AtClient(c));
    if m.kind == ServerHelloDone {
      ClientAnswers(env, g, c);
      NoneAsks(g.toC[1..]);
      var e' := g.c.(hash := g.c.hash + [m], mseqR := g.c.mseqR + 1);
      ClientFlightTaken(env, e', c);
      EmitAll(e', ClientFlight(env, e', c), c, WaitCcs);
      assert t.toS == ClientFlight(env, e', c) && t.s == g.s && Verifies(g.s) == e'.auth;
      assert ClientSpeaks(env, t);
    } else {
      ClientHandles(env, g.c, m, c);
      ClientGoesOn(env, g, c);
      assert ServerSpeaks(env, t);
    }
  }

  lemma NoneAsks(recs: seq<Rec>)
    requires recs == []
    ensures !Asks(recs)
  {
  }

  lemma ClientSpeaksAtServer(env: Env, g: State, c: Choice)
    requires Fine(env, g) && Inv(env, g) && ClientSpeaks(env, g) && Good(env, c)
    ensures var t := Step(env, g, AtServer(c)); Fine(env, t) && Left(env, t) < Left(env, g)
  {
    hide Numbered, Hs, FinishedRecs, Emit, ServerAhead, VerifyData, Inv, FinishedFits, ClientTakes;
    var t := Step(env, g, AtServer(c));
    if g.toS[0].Ccs? {
      ServerChangesCipher(env, g, c);
      assert ClientSpeaks(env, t);
    } else {
      SeqnoExpected(g.toS, g.s.mseqR);
      var m := g.toS[0].msg;
      if m.kind == Finished {
        ServerCheckSucceeds(env, g);
        ServerFinishes(env, g, c);
        LongHash(env, g);
        FinishedPair(env, g.s.(hash := g.s.hash + [m]));
        EmitAll(g.s.(hash := g.s.hash + [m]), FinishedRecs(env, g.s.(hash := g.s.hash + [m]), []), c, Connected);
        assert ServerCloses(env, t);
      } else {
        ServerHandles(env, g.s, m, c);
        ServerGoesOn(env, g, c);
        assert ClientSpeaks(env, t);
      }
    }
  }

  lemma LongHash(env: Env, g: State)
    requires ClientAhead(env, g) && g.toS != [] && IsKind(g.toS[0], Finished) && g.toS[1..] == []
    ensures |g.c.hash| >= 2
  {
    assert EndsWith(g.toS, Finished);
  }

  lemma FinishedPair(env: Env, e: End)
    ensures var recs := FinishedRecs(env, e, []); |recs| == 2 && recs[0].Ccs? && IsKind(recs[1], Finished)
  {
    hide VerifyData;
  }

  lemma ServerClosesAtClient(env: Env, g: State, c: Choice)
    requires Fine(env, g) && Inv(env, g) && ServerCloses(env, g) && Good(env, c)
    ensures var t := Step(env, g, AtClient(c)); Fine(env, t) && Left(env, t) < Left(env, g)
  {
    hide Numbered, Hs, VerifyData, Inv, FinishedFits, ClientTakes, ServerTakes, ClientAhead, ClientFlight;
    var t := Step(env, g, AtClient(c));
    if g.toC[0].Ccs? {
      ClientChangesCipher(env, g, c);
      assert g.toC[1..] == [g.toC[1]];
      assert ServerCloses(env, t);
    } else {
      SeqnoExpected(g.toC, g.c.mseqR);
      ClientCheckSucceeds(env, g);
      assert BothConnected(t);
    }
  }

  /** A fine handshake stays fine, and every delivery brings it closer to its end. */
  lemma StepStaysFine(env: Env, g: State, e: Event)
    requires Fine(env, g) && Inv(env, g) && GoodEvent(env, e)
    ensures var t := Step(env, g, e);
      && Fine(env, t) && Left(env, t) <= Left(env, g)
      && (e.AtClient? && g.toC != [] ==> Left(env, t) < Left(env, g))
      && (e.AtServer? && g.toS != [] ==> Left(env, t) < Left(env, g))
  {
    hide Good, Inv, Receive, Left;
    if Greeting(env, g) {
      hide ServerSpeaks, ClientSpeaks, ServerCloses, BothConnected;
      match e
      case Connect(body) => GreetingConnects(env, g, body);
      case AtClient(c) => if g.toC != [] { GreetingAtClient(env, g, c); }
      case AtServer(c) => if g.toS != [] { GreetingAtServer(env, g, c); }
    } else if e.AtClient? && g.toC != [] {
      if ServerSpeaks(env, g) {
        ServerSpeaksAtClient(env, g, e.choice);
      } else {
        ServerClosesAtClient(env, g, e.choice);
      }
    } else if e.AtServer? && g.toS != [] {
      ClientSpeaksAtServer(env, g, e.choice);
    }
  }

  /** In a run of good events no end ever fails; and once the client has begun and nothing is on
      its way, both ends are connected with one key block. */
  lemma {:induction false} GoodRunsComplete(env: Env, g: State, events: seq<Event>)
    requires Init(g) && g.c.pre == g.s.pre && forall i :: 0 <= i < |events| ==> GoodEvent(env, events[i])
    ensures var t := Run(env, g, events);
      && Fine(env, t) && t.c.phase != Failed && t.s.phase != Failed
      && (t.c.phase != Idle && t.toC == [] && t.toS == [] ==>
            t.c.phase == t.s.phase == Connected && |t.c.hash| >= 2
            && Master(env, t.c.pre, t.c.hash) == Master(env, t.s.pre, t.s.hash)
            && KeyBlockOf(env, t.c.pre, t.c.hash) == KeyBlockOf(env, t.s.pre, t.s.hash))
  {
    hide Inv, Step, GoodEvent, Master, KeyBlockOf, Init;
    var t := Run(env, g, events);
    TranscriptsAgree(env, g, events);
    if events == [] {
      StartsFine(env, g);
    } else {
      var was, e := events[..|events| - 1], events[|events| - 1];
      GoodRunsComplete(env, g, was);
      TranscriptsAgree(env, g, was);
      StepStaysFine(env, Run(env, g, was), e);
    }
    FineFacts(env, t);
    if t.c.phase != Idle && t.toC == [] && t.toS == [] {
      SameKeyBlock(env, t);
    }
  }

  lemma StartsFine(env: Env, g: State)
    requires Init(g) && g.c.pre == g.s.pre
    ensures Fine(env, g)
  {
    assert Greeting(env, g);
  }

  lemma FineFacts(env: Env, t: State)
    requires Fine(env, t)
    ensures t.c.phase != Failed && t.s.phase != Failed
    ensures t.c.phase != Idle && t.toC == [] && t.toS == [] ==> BothConnected(t)
  {
    hide Numbered, Hs, FinishedFits;
  }
}
