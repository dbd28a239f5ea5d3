/** dtls.c: a client and a server on loss-free channels. */
module Handshake {
  import opened Bytes
  import opened PeerState

  datatype Kind =
    | ClientHello | HelloVerify | ServerHello | Certificate | ServerKeyExchange | CertificateRequest
    | ServerHelloDone | ClientKeyExchange | CertificateVerify | Finished

  datatype Msg = Msg(kind: Kind, seqno: nat, body: seq<Byte>)

  datatype Rec = Hand(msg: Msg) | Ccs

  datatype Suite = NoSuite | EcdsaSuite | PskSuite

  /** What the protocol computes but this model need not know: how hello messages are read,
      and the pseudo-random function. */
  datatype Env = Env(hasCookie: seq<Byte> -> bool, suiteOf: seq<Byte> -> Suite,
                     master: (seq<Byte>, seq<Byte>, seq<Byte>) -> seq<Byte>,
                     verify: (seq<Byte>, Role, seq<Msg>) -> seq<Byte>,
                     expand: (seq<Byte>, seq<Byte>, seq<Byte>) -> seq<Byte>)

  datatype Phase =
    | Idle | WaitHello | WaitCert | WaitKeyExchange | WaitHelloDone
    | WaitClientCert | WaitClientKey | WaitVerify | WaitCcs | WaitFinished | Connected | Failed

  /** One end: `hash` is what has been fed to its handshake hash, `pre` its pre-master secret. */
  datatype End = End(role: Role, phase: Phase, suite: Suite, auth: bool, mseqR: nat, mseqS: nat,
                     hash: seq<Msg>, pre: seq<Byte>)

  /** The inputs of a step that the model leaves open: outcomes of checks, contents of the
      messages sent, how many records go out before a send fails, and whether the message
      that could not be sent had been hashed. */
  datatype Choice = Choice(ok: bool, hashed: bool, valid: bool, hint: bool, suite: Suite,
                           bodies: Kind -> seq<Byte>, sent: nat)

  // ---- messages in a channel ----

  function Hs(recs: seq<Rec>): (ms: seq<Msg>)
    ensures |ms| <= |recs|
  {
    if recs == [] then []
    else if recs[0].Hand? then [recs[0].msg] + Hs(recs[1..]) else Hs(recs[1..])
  }

  function HandAll(ms: seq<Msg>): (recs: seq<Rec>)
    ensures |recs| == |ms| && forall i :: 0 <= i < |ms| ==> recs[i] == Hand(ms[i])
  {
    seq(|ms|, i requires 0 <= i < |ms| => Hand(ms[i]))
  }

  function MsgsOf(kinds: seq<Kind>, seqno: nat, bodies: Kind -> seq<Byte>): (ms: seq<Msg>)
    ensures |ms| == |kinds|
    ensures forall i :: 0 <= i < |ms| ==> ms[i] == Msg(kinds[i], seqno + i, bodies(kinds[i]))
  {
    seq(|kinds|, i requires 0 <= i < |kinds| => Msg(kinds[i], seqno + i, bodies(kinds[i])))
  }

  // ---- one end ----

  /** The master secret, once both random values are known. */
  function Master(env: Env, pre: seq<Byte>, hash: seq<Msg>): seq<Byte> {
    if |hash| < 2 then [] else env.master(pre, hash[0].body, hash[1].body)
  }

  /** The key block is expanded from the master secret and the random values of both hellos. */
  function KeyBlockOf(env: Env, pre: seq<Byte>, hash: seq<Msg>): seq<Byte> {
    if |hash| < 2 then [] else env.expand(Master(env, pre, hash), hash[0].body, hash[1].body)
  }

  function VerifyData(env: Env, e: End, role: Role): seq<Byte> {
    env.verify(Master(env, e.pre, e.hash), role, e.hash)
  }

  datatype Outcome = Outcome(end: End, out: seq<Rec>)

  function Fail(e: End): Outcome {
    Outcome(e.(phase := Failed), [])
  }

  /** Sends records until one fails; the one that fails may have been hashed before. */
  function Emit(e: End, recs: seq<Rec>, c: Choice, done: Phase): Outcome {
    var k := if c.sent < |recs| then c.sent else |recs|;
    var h := if k < |recs| && c.hashed then k + 1 else k;
    var e' := e.(hash := e.hash + Hs(recs[..h]), mseqS := e.mseqS + |Hs(recs[..h])|);
    Outcome(e'.(phase := if k == |recs| then done else Failed), recs[..k])
  }

  /** A message that passed its checks is hashed, unless it is one that never is. */
  function Accept(e: End, m: Msg, c: Choice, next: Phase): Outcome {
    if c.ok then Outcome(e.(phase := next, hash := e.hash + [m], mseqR := e.mseqR + 1), [])
    else Outcome(e.(phase := Failed, hash := if c.hashed then e.hash + [m] else e.hash), [])
  }

  function FinishedRecs(env: Env, e: End, before: seq<Msg>): seq<Rec> {
    var e' := e.(hash := e.hash + before);
    [Ccs, Hand(Msg(Finished, e.mseqS + |before|, VerifyData(env, e', e.role)))]
  }

  /** The client's answer to ServerHelloDone. */
  function ClientFlight(env: Env, e: End, c: Choice): seq<Rec> {
    var kinds := if e.auth then [Certificate, ClientKeyExchange, CertificateVerify] else [ClientKeyExchange];
    var ms := MsgsOf(kinds, e.mseqS, c.bodies);
    HandAll(ms) + FinishedRecs(env, e, ms)
  }

  /** Without a suite the client stops before its ClientKeyExchange, and has not hashed it. */
  function Sendable(e: End, c: Choice): Choice {
    var limit := if e.auth then 1 else 0;
    if e.suite == NoSuite && c.sent >= limit then c.(sent := limit, hashed := false) else c
  }

  /** The server's answer to a ClientHello with a valid cookie. */
  function ServerFlight(e: End, c: Choice): seq<Rec> {
    var kinds :=
      [ServerHello]
      + (if e.suite == EcdsaSuite then [Certificate, ServerKeyExchange] + (if e.auth then [CertificateRequest] else []) else [])
      + (if e.suite == PskSuite && c.hint then [ServerKeyExchange] else [])
      + [ServerHelloDone];
    HandAll(MsgsOf(kinds, e.mseqS, c.bodies))
  }

  /** handle_handshake_msg. */
  function Handle(env: Env, e: End, m: Msg, c: Choice): Outcome {
    match m.kind
    case HelloVerify =>
      if e.phase != WaitHello || !c.ok || !env.hasCookie(c.bodies(ClientHello)) then Fail(e)
      else
        var e' := e.(hash := [], mseqR := e.mseqR + 1);
        Emit(e', [Hand(Msg(ClientHello, e.mseqS, c.bodies(ClientHello)))], c, WaitHello)
    case ServerHello =>
      if e.phase != WaitHello then Fail(e)
      else
        var suite := env.suiteOf(m.body);
        Accept(e.(suite := suite), m, c.(ok := c.ok && suite != NoSuite),
               if suite == EcdsaSuite then WaitCert else WaitHelloDone)
    case Certificate =>
      if e.phase != (if e.role == Client then WaitCert else WaitClientCert) then Fail(e)
      else Accept(e, m, c, if e.role == Client then WaitKeyExchange else WaitClientKey)
    case ServerKeyExchange =>
      if e.suite == EcdsaSuite && e.phase != WaitKeyExchange then Fail(e)
      else if e.suite == PskSuite && e.phase != WaitHelloDone then Fail(e)
      else if e.suite == NoSuite then Outcome(e.(phase := WaitHelloDone, mseqR := e.mseqR + 1), [])
      else Accept(e, m, c, WaitHelloDone)
    case CertificateRequest =>
      if e.phase != WaitHelloDone then Fail(e) else Accept(e.(auth := true), m, c, WaitHelloDone)
    case ServerHelloDone =>
      if e.phase != WaitHelloDone then Fail(e)
      else
        var e' := e.(hash := e.hash + [m], mseqR := e.mseqR + 1);
        Emit(e', ClientFlight(env, e', c), Sendable(e', c), WaitCcs)
    case ClientKeyExchange =>
      if e.phase != WaitClientKey then Fail(e)
      else Accept(e, m, c, if e.suite == EcdsaSuite && e.auth then WaitVerify else WaitCcs)
    case CertificateVerify =>
      if e.phase != WaitVerify then Fail(e) else Accept(e, m, c, WaitCcs)
    case Finished =>
      if e.phase != WaitFinished || m.body != VerifyData(env, e, Other(e.role)) then Fail(e)
      else if e.role == Client then Outcome(e.(phase := Connected), [])
      else
        var e' := e.(hash := e.hash + [m]);
        Emit(e', FinishedRecs(env, e', []), c, Connected)
    case ClientHello => Fail(e)
  }

  /** A ClientHello for which there is no peer yet: a cookie is asked for, or the handshake begins. */
  function Greet(env: Env, e: End, m: Msg, c: Choice): Outcome {
    if m.kind != ClientHello then Outcome(e, [])
    else if !env.hasCookie(m.body) || !c.valid then
      Outcome(e, if c.sent > 0 then [Hand(Msg(HelloVerify, 0, c.bodies(HelloVerify)))] else [])
    else if !c.ok || c.suite == NoSuite || env.suiteOf(c.bodies(ServerHello)) != c.suite then
      Outcome(e.(phase := Failed), [])
    else
      var e' := e.(suite := c.suite, hash := [m], mseqR := m.seqno + 1, mseqS := 1);
      Emit(e', ServerFlight(e', c), c, if c.suite == EcdsaSuite && e.auth then WaitClientCert else WaitClientKey)
  }

  /** What an end makes of a record. An end whose handshake is over or has failed takes no
      further part, and only the expected message number is handled. */
  function Receive(env: Env, e: End, r: Rec, c: Choice): Outcome {
    if e.phase == Failed || e.phase == Connected then Outcome(e, [])
    else if r.Ccs? then
      Outcome(if e.phase == WaitCcs then (if c.ok then e.(phase := WaitFinished) else e.(phase := Failed)) else e, [])
    else if e.phase == Idle then (if e.role == Server then Greet(env, e, r.msg, c) else Outcome(e, []))
    else if r.msg.seqno != e.mseqR then Outcome(e, [])
    else Handle(env, e, r.msg, c)
  }

  // ---- both ends ----

  datatype State = State(c: End, s: End, toS: seq<Rec>, toC: seq<Rec>)

  datatype Event = Connect(body: seq<Byte>) | AtClient(choice: Choice) | AtServer(choice: Choice)

  predicate Init(g: State) {
    && g.c.role == Client && g.c.phase == Idle && g.c.suite == NoSuite && !g.c.auth && g.c.hash == [] && g.c.mseqR == g.c.mseqS == 0
    && g.s.role == Server && g.s.phase == Idle && g.s.hash == []
    && g.toS == [] && g.toC == []
  }

  function Step(env: Env, g: State, e: Event): State {
    match e
    case Connect(body) =>
      if g.c.phase != Idle || env.hasCookie(body) then g
      else g.(c := g.c.(phase := WaitHello, mseqS := g.c.mseqS + 1), toS := g.toS + [Hand(Msg(ClientHello, g.c.mseqS, body))])
    case AtClient(c) =>
      if g.toC == [] then g
      else
        var o := Receive(env, g.c, g.toC[0], c);
        State(o.end, g.s, g.toS + o.out, g.toC[1..])
    case AtServer(c) =>
      if g.toS == [] then g
      else
        var o := Receive(env, g.s, g.toS[0], c);
        State(g.c, o.end, g.toS[1..], g.toC + o.out)
  }

  // ---- channels ----

  lemma HsPop(recs: seq<Rec>)
    requires recs != []
    ensures Hs(recs) == (if recs[0].Hand? then [recs[0].msg] else []) + Hs(recs[1..])
  {
  }

  lemma {:induction false} HsConcat(a: seq<Rec>, b: seq<Rec>)
    ensures Hs(a + b) == Hs(a) + Hs(b)
  {
    if a == [] {
      assert a + b == b;
    } else {
      assert (a + b)[1..] == a[1..] + b;
      HsConcat(a[1..], b);
    }
  }

  lemma {:induction false} HsOfHandAll(ms: seq<Msg>)
    ensures Hs(HandAll(ms)) == ms
  {
    if ms != [] {
      assert HandAll(ms)[1..] == HandAll(ms[1..]);
      HsOfHandAll(ms[1..]);
    }
  }

  lemma HsTake(recs: seq<Rec>, k: nat, h: nat)
    requires k <= h <= |recs|
    ensures Hs(recs[..k]) <= Hs(recs[..h])
  {
    assert recs[..h] == recs[..k] + recs[k..h];
    HsConcat(recs[..k], recs[k..h]);
  }

  /** The messages carry consecutive numbers from n on. */
  predicate Numbered(recs: seq<Rec>, n: nat) {
    recs == [] ||
    if recs[0].Ccs? then Numbered(recs[1..], n) else recs[0].msg.seqno == n && Numbered(recs[1..], n + 1)
  }

  lemma {:induction false} NumberedTake(recs: seq<Rec>, n: nat, k: nat)
    requires Numbered(recs, n) && k <= |recs|
    ensures Numbered(recs[..k], n)
  {
    if k > 0 {
      assert recs[..k][1..] == recs[1..][..k - 1];
      NumberedTake(recs[1..], if recs[0].Ccs? then n else n + 1, k - 1);
    }
  }

  lemma {:induction false} NumberedConcat(a: seq<Rec>, b: seq<Rec>, n: nat)
    requires Numbered(a, n) && Numbered(b, n + |Hs(a)|)
    ensures Numbered(a + b, n)
  {
    if a == [] {
      assert a + b == b;
    } else {
      assert (a + b)[1..] == a[1..] + b;
      NumberedConcat(a[1..], b, if a[0].Ccs? then n else n + 1);
    }
  }

  lemma {:induction false} NumberedMsgs(ms: seq<Msg>, n: nat)
    requires forall i :: 0 <= i < |ms| ==> ms[i].seqno == n + i
    ensures Numbered(HandAll(ms), n)
  {
    if ms != [] {
      assert HandAll(ms)[1..] == HandAll(ms[1..]);
      forall i | 0 <= i < |ms[1..]|
        ensures ms[1..][i].seqno == n + 1 + i
      {
        assert ms[1..][i] == ms[i + 1];
      }
      NumberedMsgs(ms[1..], n + 1);
    }
  }

  predicate IsKind(r: Rec, k: Kind) {
    r.Hand? && r.msg.kind == k
  }

  /** A message of this kind can only come last. */
  predicate OnlyLast(recs: seq<Rec>, k: Kind) {
    forall i :: 0 <= i < |recs| - 1 ==> !IsKind(recs[i], k)
  }

  predicate EndsWith(recs: seq<Rec>, k: Kind) {
    recs != [] && IsKind(recs[|recs| - 1], k)
  }

  predicate FromServer(recs: seq<Rec>) {
    forall i :: 0 <= i < |recs| && recs[i].Hand? ==>
      recs[i].msg.kind in {ServerHello, Certificate, ServerKeyExchange, CertificateRequest, ServerHelloDone, Finished}
  }

  predicate FromClient(recs: seq<Rec>) {
    forall i :: 0 <= i < |recs| && recs[i].Hand? ==>
      recs[i].msg.kind in {Certificate, ClientKeyExchange, CertificateVerify, Finished}
  }

  // ---- the invariant ----

  predicate Over(e: End) {
    e.phase == Failed || e.phase == Connected
  }

  /** The last message hashed is a Finished for everything hashed before it. */
  predicate FinishedFits(env: Env, e: End) {
    |e.hash| > 2 &&
    var before := e.hash[..|e.hash| - 1];
    e.hash[|e.hash| - 1].body == env.verify(Master(env, e.pre, before), e.role, before)
  }

  /** No peer yet at the server: at most one record is under way. */
  predicate Before(env: Env, g: State) {
    && g.s.phase == Idle && g.s.hash == []
    && |g.toS| + |g.toC| <= 1
    && (g.toC != [] ==> IsKind(g.toC[0], HelloVerify) && g.toC[0].msg.seqno == 0)
    && (g.toS != [] ==> IsKind(g.toS[0], ClientHello))
    && (g.toS != [] && env.hasCookie(g.toS[0].msg.body) ==>
          g.c.hash == [g.toS[0].msg] && g.c.phase == WaitHello && g.c.mseqR == 1 && g.c.mseqS == 2 && g.toS[0].msg.seqno == 1)
    && g.c.suite == NoSuite
    && (g.c.phase == Idle ==> g.toS == [] && g.toC == [] && g.c.mseqR == 0 && g.c.mseqS == 0 && g.c.hash == [])
    && (g.c.phase == WaitHello ==> g.c.mseqS == g.c.mseqR + 1 && g.c.mseqR <= 1)
    && (g.c.phase == Idle || g.c.phase == WaitHello || g.c.phase == Failed)
  }

  /** What is on its way to the client is what the server has hashed and the client has not. */
  predicate ServerAhead(env: Env, g: State) {
    && g.toS == [] && g.s.phase != Idle && g.c.phase != Idle
    && |g.c.hash| >= 1
    && g.c.hash + Hs(g.toC) <= g.s.hash && (g.s.phase != Failed ==> g.c.hash + Hs(g.toC) == g.s.hash)
    && FromServer(g.toC) && OnlyLast(g.toC, ServerHelloDone) && OnlyLast(g.toC, Finished)
    && (!Over(g.c) ==> Numbered(g.toC, g.c.mseqR))
    && (!Over(g.c) && g.c.suite == NoSuite && g.toC != [] ==> IsKind(g.toC[0], ServerHello))
    && (EndsWith(g.toC, ServerHelloDone) ==>
          !Over(g.s) && (!Over(g.c) ==> g.s.mseqR == g.c.mseqS && g.c.mseqR + |Hs(g.toC)| == g.s.mseqS))
    && (EndsWith(g.toC, Finished) ==> g.s.phase == Connected && FinishedFits(env, g.s))
  }

  /** What is on its way to the server is what the client has hashed and the server has not. */
  predicate ClientAhead(env: Env, g: State) {
    && g.toC == [] && g.s.phase != Idle && g.c.phase != Idle
    && |g.s.hash| >= 1
    && g.s.hash + Hs(g.toS) <= g.c.hash && (g.c.phase != Failed ==> g.s.hash + Hs(g.toS) == g.c.hash)
    && FromClient(g.toS) && OnlyLast(g.toS, Finished)
    && (!Over(g.s) ==> Numbered(g.toS, g.s.mseqR))
    && (EndsWith(g.toS, Finished) ==>
          g.c.phase == WaitCcs && g.c.suite != NoSuite && FinishedFits(env, g.c)
          && (!Over(g.s) ==> g.c.mseqR == g.s.mseqS))
  }

  predicate Comparable(a: seq<Msg>, b: seq<Msg>) {
    a <= b || b <= a
  }

  /** The client takes no further part and has sent nothing the server could still hash. */
  predicate ClientDone(g: State) {
    Over(g.c) && g.toS == [] && g.s.phase != Idle && Comparable(g.c.hash, g.s.hash)
  }

  predicate ServerDone(g: State) {
    Over(g.s) && g.c.phase != Idle && Hs(g.toC) == [] && Comparable(g.c.hash, g.s.hash)
  }

  predicate Inv(env: Env, g: State) {
    && g.c.role == Client && g.s.role == Server
    && (Before(env, g) || ServerAhead(env, g) || ClientAhead(env, g) || ClientDone(g) || ServerDone(g))
  }

  lemma InvComparable(env: Env, g: State)
    requires Inv(env, g)
    ensures Comparable(g.c.hash, g.s.hash)
  {
  }

  // ---- flights ----

  lemma EmitFacts(e: End, recs: seq<Rec>, c: Choice, done: Phase)
    ensures var o := Emit(e, recs, c, done);
      && |o.out| <= |recs| && o.out == recs[..|o.out|]
      && e.hash + Hs(o.out) <= o.end.hash
      && (o.out == recs ==> o.end.hash == e.hash + Hs(recs) && o.end.mseqS == e.mseqS + |Hs(recs)| && o.end.phase == done)
      && (o.out != recs ==> o.end.phase == Failed)
      && o.end.role == e.role && o.end.pre == e.pre && o.end.suite == e.suite && o.end.mseqR == e.mseqR
  {
    hide Hs;
    var k := if c.sent < |recs| then c.sent else |recs|;
    var h := if k < |recs| && c.hashed then k + 1 else k;
    HsTake(recs, k, h);
    PrefixConcat(e.hash, Hs(recs[..k]), Hs(recs[..h]));
    if k == |recs| {
      assert recs[..k] == recs;
    }
  }

  lemma PrefixConcat(a: seq<Msg>, b: seq<Msg>, c: seq<Msg>)
    requires b <= c
    ensures a + b <= a + c
  {
  }

  lemma ServerFlightFacts(e: End, c: Choice)
    ensures var recs := ServerFlight(e, c);
      && recs != [] && IsKind(recs[0], ServerHello) && IsKind(recs[|recs| - 1], ServerHelloDone)
      && FromServer(recs) && OnlyLast(recs, ServerHelloDone) && OnlyLast(recs, Finished)
      && !EndsWith(recs, Finished) && Numbered(recs, e.mseqS) && |Hs(recs)| == |recs|
  {
    hide Hs, Numbered;
    var kinds :=
      [ServerHello]
      + (if e.suite == EcdsaSuite then [Certificate, ServerKeyExchange] + (if e.auth then [CertificateRequest] else []) else [])
      + (if e.suite == PskSuite && c.hint then [ServerKeyExchange] else [])
      + [ServerHelloDone];
    var ms := MsgsOf(kinds, e.mseqS, c.bodies);
    HsOfHandAll(ms);
    NumberedMsgs(ms, e.mseqS);
  }

  lemma FinishedRecsFacts(env: Env, e: End, before: seq<Msg>)
    ensures var recs := FinishedRecs(env, e, before);
      && |recs| == 2 && recs[0] == Ccs && recs[1].Hand? && recs[1].msg.kind == Finished
      && recs[1].msg.seqno == e.mseqS + |before| && Hs(recs) == [recs[1].msg] && Numbered(recs, e.mseqS + |before|)
      && recs[1].msg.body == env.verify(Master(env, e.pre, e.hash + before), e.role, e.hash + before)
  {
    var recs := FinishedRecs(env, e, before);
    assert recs[1..] == [recs[1]] && recs[1..][1..] == [];
  }

  lemma ClientFlightFacts(env: Env, e: End, c: Choice)
    ensures var recs := ClientFlight(env, e, c);
      && |recs| >= 3 && FromClient(recs) && OnlyLast(recs, Finished) && IsKind(recs[|recs| - 1], Finished)
      && Numbered(recs, e.mseqS) && |Hs(recs)| >= 2
      && var ms := Hs(recs); var before := e.hash + ms[..|ms| - 1];
         ms[|ms| - 1].body == env.verify(Master(env, e.pre, before), e.role, before)
  {
    hide Numbered, Master, FinishedRecs;
    var kinds := if e.auth then [Certificate, ClientKeyExchange, CertificateVerify] else [ClientKeyExchange];
    var ms := MsgsOf(kinds, e.mseqS, c.bodies);
    HsOfHandAll(ms);
    NumberedMsgs(ms, e.mseqS);
    FinishedRecsFacts(env, e, ms);
    var fin := FinishedRecs(env, e, ms);
    HsConcat(HandAll(ms), fin);
    NumberedConcat(HandAll(ms), fin, e.mseqS);
    assert Hs(ClientFlight(env, e, c))[..|ms|] == ms;
  }

  // ---- every step keeps the invariant ----

  lemma ConnectKeeps(env: Env, g: State, body: seq<Byte>)
    requires g.c.role == Client && g.s.role == Server && Inv(env, g)
    ensures Inv(env, Step(env, g, Connect(body)))
  {
    hide Hs, Numbered, FinishedFits;
    var t := Step(env, g, Connect(body));
    if g.c.phase == Idle && !env.hasCookie(body) {
      assert Before(env, g);
      assert Before(env, t);
    }
  }

  /** The client gets a HelloVerifyRequest. */
  lemma BeforeAtClient(env: Env, g: State, c: Choice)
    requires g.c.role == Client && g.s.role == Server && Before(env, g) && g.toC != []
    ensures Before(env, Step(env, g, AtClient(c))) && Step(env, g, AtClient(c)).c.role == Client
  {
    hide Numbered, FinishedFits, Emit, Hs, ClientFlight, FinishedRecs, VerifyData, Accept, Greet;
    var r := g.toC[0];
    assert g.toC[1..] == [];
    if g.c.phase == WaitHello && r.msg.seqno == g.c.mseqR && c.ok && env.hasCookie(c.bodies(ClientHello)) {
      var e' := g.c.(hash := [], mseqR := g.c.mseqR + 1);
      var recs := [Hand(Msg(ClientHello, g.c.mseqS, c.bodies(ClientHello)))];
      EmitFacts(e', recs, c, WaitHello);
      HsOne(recs[0].msg);
    }
  }

  lemma HsOne(m: Msg)
    ensures Hs([Hand(m)]) == [m] && Hs([]) == []
  {
    assert [Hand(m)][1..] == [];
  }

  /** The server gets a ClientHello. */
  lemma BeforeAtServer(env: Env, g: State, c: Choice)
    requires g.c.role == Client && g.s.role == Server && Before(env, g) && g.toS != []
    ensures Inv(env, Step(env, g, AtServer(c)))
  {
    hide Numbered, FinishedFits, ServerFlight, Emit;
    var m := g.toS[0].msg;
    var t := Step(env, g, AtServer(c));
    assert g.toS[1..] == [] && g.toC == [];
    if !env.hasCookie(m.body) || !c.valid {
      assert Before(env, t);
    } else if !c.ok || c.suite == NoSuite || env.suiteOf(c.bodies(ServerHello)) != c.suite {
      assert ServerDone(t);
    } else {
      Greeted(env, g, c);
    }
  }

  lemma Greeted(env: Env, g: State, c: Choice)
    requires g.c.role == Client && g.s.role == Server && Before(env, g) && g.toS != []
    requires env.hasCookie(g.toS[0].msg.body) && c.valid && c.ok && c.suite != NoSuite
    requires env.suiteOf(c.bodies(ServerHello)) == c.suite
    ensures ServerAhead(env, Step(env, g, AtServer(c))) && Step(env, g, AtServer(c)).s.role == Server
  {
    hide FinishedFits, ServerFlight, Emit, Hs, Numbered;
    var m := g.toS[0].msg;
    var e' := g.s.(suite := c.suite, hash := [m], mseqR := m.seqno + 1, mseqS := 1);
    var t := Step(env, g, AtServer(c));
    assert g.toS[1..] == [] && g.toC == [];
    ServerFlightSent(env, e', c, g.c, t, if c.suite == EcdsaSuite && g.s.auth then WaitClientCert else WaitClientKey);
  }

  lemma ServerFlightSent(env: Env, e: End, c: Choice, client: End, t: State, next: Phase)
    requires e.role == Server && |e.hash| == 1 && e.hash == client.hash && e.mseqS == client.mseqR && e.mseqR == client.mseqS
    requires client.phase == WaitHello && (next == WaitClientCert || next == WaitClientKey)
    requires var o := Emit(e, ServerFlight(e, c), c, next); t == State(client, o.end, [], o.out)
    ensures ServerAhead(env, t) && t.s.role == Server
  {
    hide FinishedFits, ServerFlight, Emit, Hs, Numbered;
    var recs := ServerFlight(e, c);
    ServerFlightFacts(e, c);
    EmitFacts(e, recs, c, next);
    var k := |t.toC|;
    NumberedTake(recs, e.mseqS, k);
    PartOfFlight(recs, k, ServerHelloDone);
  }

  /** What is sent of a flight has its last message only if all of it is sent. */
  lemma PartOfFlight(recs: seq<Rec>, k: nat, last: Kind)
    requires k <= |recs| && OnlyLast(recs, last)
    ensures OnlyLast(recs[..k], last)
    ensures EndsWith(recs[..k], last) ==> k == |recs| && recs[..k] == recs
  {
  }

  /** One message handled by a client that waits for it: the end of its part, or one more message
      hashed. */
  predicate Progress(e: End, m: Msg, o: Outcome) {
    && o.out == [] && o.end.role == e.role && o.end.pre == e.pre
    && if Over(o.end) then o.end.hash == e.hash || o.end.hash == e.hash + [m]
       else o.end.hash == e.hash + [m] && o.end.mseqR == e.mseqR + 1 && o.end.mseqS == e.mseqS
            && (e.role == Client ==> o.end.suite != NoSuite) && o.end.phase != Idle
  }

  lemma ClientHandles(env: Env, e: End, m: Msg, c: Choice)
    requires e.role == Client && !Over(e) && e.phase != Idle
    requires m.kind in {ServerHello, Certificate, ServerKeyExchange, CertificateRequest, Finished}
    requires e.suite == NoSuite ==> m.kind == ServerHello
    ensures Progress(e, m, Handle(env, e, m, c))
  {
    hide Master;
  }

  lemma ServerHandles(env: Env, e: End, m: Msg, c: Choice)
    requires e.role == Server && !Over(e) && e.phase != Idle
    requires m.kind in {Certificate, ClientKeyExchange, CertificateVerify}
    ensures Progress(e, m, Handle(env, e, m, c))
  {
  }

  lemma PopFacts(recs: seq<Rec>, n: nat, last: Kind)
    requires recs != [] && OnlyLast(recs, last)
    ensures OnlyLast(recs[1..], last)
    ensures IsKind(recs[0], last) ==> recs[1..] == [] && EndsWith(recs, last)
    ensures recs[1..] != [] ==> (EndsWith(recs[1..], last) <==> EndsWith(recs, last))
    ensures Numbered(recs, n) ==> Numbered(recs[1..], if recs[0].Ccs? then n else n + 1)
    ensures Numbered(recs, n) && recs[0].Hand? ==> recs[0].msg.seqno == n
  {
  }

  lemma PrefixOfSum(a: seq<Msg>, b: seq<Msg>, c: seq<Msg>)
    requires a + b <= c
    ensures a <= c && (b != [] ==> a + [b[0]] <= c && a + [b[0]] + b[1..] == a + b)
  {
    assert c[..|a + b|] == a + b;
    assert c[..|a|] == a;
    if b != [] {
      assert c[..|a| + 1] == a + [b[0]];
    }
  }

  lemma ServerAheadAtClient(env: Env, g: State, c: Choice)
    requires g.c.role == Client && g.s.role == Server && ServerAhead(env, g) && g.toC != []
    ensures Inv(env, Step(env, g, AtClient(c)))
  {
    hide FinishedFits, Handle, Hs, Numbered, Master, OnlyLast, EndsWith, FromServer, Step;
    if Over(g.c) {
      ClientIgnores(env, g, c);
    } else if g.toC[0].Ccs? {
      ClientChangesCipher(env, g, c);
    } else {
      SeqnoExpected(g.toC, g.c.mseqR);
      if IsKind(g.toC[0], ServerHelloDone) {
        ClientAnswers(env, g, c);
      } else {
        ServerKind(g.toC);
        ClientHandles(env, g.c, g.toC[0].msg, c);
        if Over(Handle(env, g.c, g.toC[0].msg, c).end) {
          ClientEnds(env, g, c);
        } else {
          ClientGoesOn(env, g, c);
        }
      }
    }
  }

  lemma SeqnoExpected(recs: seq<Rec>, n: nat)
    requires recs != [] && recs[0].Hand? && Numbered(recs, n)
    ensures recs[0].msg.seqno == n
  {
  }

  lemma ServerKind(recs: seq<Rec>)
    requires recs != [] && recs[0].Hand? && FromServer(recs)
    ensures recs[0].msg.kind in {ServerHello, Certificate, ServerKeyExchange, CertificateRequest, ServerHelloDone, Finished}
  {
  }

  lemma ClientKind(recs: seq<Rec>)
    requires recs != [] && recs[0].Hand? && FromClient(recs)
    ensures recs[0].msg.kind in {Certificate, ClientKeyExchange, CertificateVerify, Finished}
  {
  }

  lemma ClientIgnores(env: Env, g: State, c: Choice)
    requires g.c.role == Client && g.s.role == Server && ServerAhead(env, g) && g.toC != [] && Over(g.c)
    ensures Inv(env, Step(env, g, AtClient(c)))
  {
    hide FinishedFits, Hs, Numbered, Handle;
    PrefixOfSum(g.c.hash, Hs(g.toC), g.s.hash);
    assert ClientDone(Step(env, g, AtClient(c)));
  }

  lemma ClientChangesCipher(env: Env, g: State, c: Choice)
    requires g.c.role == Client && g.s.role == Server && ServerAhead(env, g) && g.toC != [] && !Over(g.c) && g.toC[0].Ccs?
    ensures Inv(env, Step(env, g, AtClient(c)))
    ensures ServerAhead(env, Step(env, g, AtClient(c)))
  {
    hide FinishedFits, Hs, Numbered, Handle;
    HsPop(g.toC);
    PopFacts(g.toC, g.c.mseqR, ServerHelloDone);
    PopFacts(g.toC, g.c.mseqR, Finished);
    assert [] + Hs(g.toC[1..]) == Hs(g.toC[1..]);
    assert ServerAhead(env, Step(env, g, AtClient(c)));
  }

  lemma ClientEnds(env: Env, g: State, c: Choice)
    requires g.c.role == Client && g.s.role == Server && ServerAhead(env, g) && g.toC != [] && !Over(g.c)
    requires g.toC[0].Hand? && g.toC[0].msg.seqno == g.c.mseqR
    requires Progress(g.c, g.toC[0].msg, Handle(env, g.c, g.toC[0].msg, c))
    requires Over(Handle(env, g.c, g.toC[0].msg, c).end)
    ensures Inv(env, Step(env, g, AtClient(c)))
  {
    hide FinishedFits, Hs, Numbered, Handle;
    HsPop(g.toC);
    PrefixOfSum(g.c.hash, Hs(g.toC), g.s.hash);
    assert ClientDone(Step(env, g, AtClient(c)));
  }

  lemma ClientGoesOn(env: Env, g: State, c: Choice)
    requires g.c.role == Client && g.s.role == Server && ServerAhead(env, g) && g.toC != [] && g.toC[0].Hand? && !Over(g.c)
    requires g.toC[0].msg.kind != ServerHelloDone && g.toC[0].msg.seqno == g.c.mseqR
    requires Progress(g.c, g.toC[0].msg, Handle(env, g.c, g.toC[0].msg, c))
    requires !Over(Handle(env, g.c, g.toC[0].msg, c).end)
    ensures Inv(env, Step(env, g, AtClient(c)))
    ensures ServerAhead(env, Step(env, g, AtClient(c)))
  {
    hide FinishedFits, Handle, Hs, Numbered, Master;
    var rest := g.toC[1..];
    HsPop(g.toC);
    PopFacts(g.toC, g.c.mseqR, ServerHelloDone);
    PopFacts(g.toC, g.c.mseqR, Finished);
    PrefixOfSum(g.c.hash, Hs(g.toC), g.s.hash);
    assert Hs(g.toC)[1..] == Hs(rest);
    if rest == [] {
      assert !EndsWith(rest, ServerHelloDone);
    }
    assert ServerAhead(env, Step(env, g, AtClient(c)));
  }

  /** ServerHelloDone: the client has caught up, and its own flight is what it is ahead by. */
  lemma ClientAnswers(env: Env, g: State, c: Choice)
    requires g.c.role == Client && g.s.role == Server && ServerAhead(env, g) && !Over(g.c)
    requires g.toC != [] && IsKind(g.toC[0], ServerHelloDone) && g.toC[0].msg.seqno == g.c.mseqR
    ensures Inv(env, Step(env, g, AtClient(c)))
    ensures g.c.phase == WaitHelloDone ==> ClientAhead(env, Step(env, g, AtClient(c)))
  {
    hide Hs, Numbered, Master, ClientFlight, Emit;
    var m := g.toC[0].msg;
    HsPop(g.toC);
    PopFacts(g.toC, g.c.mseqR, ServerHelloDone);
    assert Hs(g.toC) == [m] by { EmptyHs(); }
    var t := Step(env, g, AtClient(c));
    if g.c.phase != WaitHelloDone {
      assert ClientDone(t);
    } else {
      var e' := g.c.(hash := g.c.hash + [m], mseqR := g.c.mseqR + 1);
      assert e'.hash == g.s.hash;
      ClientFlightSent(env, e', c, g.s, t);
    }
  }

  lemma EmptyHs()
    ensures Hs([]) == []
  {
  }

  lemma ClientFlightSent(env: Env, e: End, c: Choice, s: End, t: State)
    requires e.role == Client && |e.hash| >= 2 && e.hash == s.hash && e.mseqS == s.mseqR && e.mseqR == s.mseqS
    requires e.suite != NoSuite && s.phase != Idle && !Over(s)
    requires var o := Emit(e, ClientFlight(env, e, c), c, WaitCcs); t == State(o.end, s, o.out, [])
    ensures ClientAhead(env, t) && t.c.role == Client
  {
    hide Hs, Numbered, Master, ClientFlight, Emit;
    var recs := ClientFlight(env, e, c);
    ClientFlightFacts(env, e, c);
    EmitFacts(e, recs, c, WaitCcs);
    var k := |t.toS|;
    NumberedTake(recs, e.mseqS, k);
    PartOfFlight(recs, k, Finished);
    EmptyHs();
    if EndsWith(t.toS, Finished) {
      FitsAfter(env, e, Hs(recs), t.c);
    }
  }

  lemma FitsAfter(env: Env, e: End, ms: seq<Msg>, e': End)
    requires ms != [] && |e.hash| + |ms| > 2 && e'.hash == e.hash + ms && e'.pre == e.pre && e'.role == e.role
    requires var before := e.hash + ms[..|ms| - 1];
      ms[|ms| - 1].body == env.verify(Master(env, e.pre, before), e.role, before)
    ensures FinishedFits(env, e')
  {
    hide Master;
    assert e'.hash[..|e'.hash| - 1] == e.hash + ms[..|ms| - 1];
  }

  lemma ClientAheadAtServer(env: Env, g: State, c: Choice)
    requires g.c.role == Client && g.s.role == Server && ClientAhead(env, g) && g.toS != []
    ensures Inv(env, Step(env, g, AtServer(c)))
  {
    hide FinishedFits, Handle, Hs, Numbered, Master, OnlyLast, EndsWith, FromClient, Step;
    if Over(g.s) {
      ServerIgnores(env, g, c);
    } else if g.toS[0].Ccs? {
      ServerChangesCipher(env, g, c);
    } else {
      SeqnoExpected(g.toS, g.s.mseqR);
      if IsKind(g.toS[0], Finished) {
        ServerFinishes(env, g, c);
      } else {
        ClientKind(g.toS);
        ServerHandles(env, g.s, g.toS[0].msg, c);
        if Over(Handle(env, g.s, g.toS[0].msg, c).end) {
          ServerEnds(env, g, c);
        } else {
          ServerGoesOn(env, g, c);
        }
      }
    }
  }

  lemma ServerIgnores(env: Env, g: State, c: Choice)
    requires g.c.role == Client && g.s.role == Server && ClientAhead(env, g) && g.toS != [] && Over(g.s)
    ensures Inv(env, Step(env, g, AtServer(c)))
  {
    hide FinishedFits, Hs, Numbered, Handle;
    EmptyHs();
    PrefixOfSum(g.s.hash, Hs(g.toS), g.c.hash);
    assert ServerDone(Step(env, g, AtServer(c)));
  }

  lemma ServerChangesCipher(env: Env, g: State, c: Choice)
    requires g.c.role == Client && g.s.role == Server && ClientAhead(env, g) && g.toS != [] && !Over(g.s) && g.toS[0].Ccs?
    ensures Inv(env, Step(env, g, AtServer(c)))
    ensures ClientAhead(env, Step(env, g, AtServer(c)))
  {
    hide FinishedFits, Hs, Numbered, Handle;
    HsPop(g.toS);
    PopFacts(g.toS, g.s.mseqR, Finished);
    assert [] + Hs(g.toS[1..]) == Hs(g.toS[1..]);
    assert ClientAhead(env, Step(env, g, AtServer(c)));
  }

  lemma ServerEnds(env: Env, g: State, c: Choice)
    requires g.c.role == Client && g.s.role == Server && ClientAhead(env, g) && g.toS != [] && !Over(g.s)
    requires g.toS[0].Hand? && g.toS[0].msg.seqno == g.s.mseqR
    requires Progress(g.s, g.toS[0].msg, Handle(env, g.s, g.toS[0].msg, c))
    requires Over(Handle(env, g.s, g.toS[0].msg, c).end)
    ensures Inv(env, Step(env, g, AtServer(c)))
  {
    hide FinishedFits, Hs, Numbered, Handle;
    EmptyHs();
    HsPop(g.toS);
    PrefixOfSum(g.s.hash, Hs(g.toS), g.c.hash);
    assert ServerDone(Step(env, g, AtServer(c)));
  }

  lemma ServerGoesOn(env: Env, g: State, c: Choice)
    requires g.c.role == Client && g.s.role == Server && ClientAhead(env, g) && g.toS != [] && g.toS[0].Hand? && !Over(g.s)
    requires g.toS[0].msg.kind != Finished && g.toS[0].msg.seqno == g.s.mseqR
    requires Progress(g.s, g.toS[0].msg, Handle(env, g.s, g.toS[0].msg, c))
    requires !Over(Handle(env, g.s, g.toS[0].msg, c).end)
    ensures Inv(env, Step(env, g, AtServer(c)))
    ensures ClientAhead(env, Step(env, g, AtServer(c)))
  {
    hide FinishedFits, Handle, Hs, Numbered, Master;
    var rest := g.toS[1..];
    HsPop(g.toS);
    PopFacts(g.toS, g.s.mseqR, Finished);
    PrefixOfSum(g.s.hash, Hs(g.toS), g.c.hash);
    assert Hs(g.toS)[1..] == Hs(rest);
    if rest == [] {
      assert !EndsWith(rest, Finished);
    }
    assert ClientAhead(env, Step(env, g, AtServer(c)));
  }

  /** The client's Finished: the server has caught up, and answers with its own. */
  lemma ServerFinishes(env: Env, g: State, c: Choice)
    requires g.c.role == Client && g.s.role == Server && ClientAhead(env, g) && !Over(g.s)
    requires g.toS != [] && IsKind(g.toS[0], Finished) && g.toS[0].msg.seqno == g.s.mseqR
    ensures Inv(env, Step(env, g, AtServer(c)))
    ensures g.s.phase == WaitFinished && g.toS[0].msg.body == VerifyData(env, g.s, Client) ==> ServerAhead(env, Step(env, g, AtServer(c)))
  {
    hide FinishedFits, Hs, Numbered, Master, FinishedRecs, Emit;
    var m := g.toS[0].msg;
    HsPop(g.toS);
    PopFacts(g.toS, g.s.mseqR, Finished);
    EmptyHs();
    assert Hs(g.toS) == [m];
    PrefixOfSum(g.s.hash, Hs(g.toS), g.c.hash);
    var t := Step(env, g, AtServer(c));
    if g.s.phase != WaitFinished || m.body != VerifyData(env, g.s, Client) {
      assert ServerDone(t);
    } else {
      var e' := g.s.(hash := g.s.hash + [m]);
      ServerFinishedSent(env, e', c, g.c, t);
    }
  }

  lemma ServerFinishedSent(env: Env, e: End, c: Choice, client: End, t: State)
    requires e.role == Server && |e.hash| >= 2 && e.hash == client.hash && e.mseqS == client.mseqR
    requires client.phase == WaitCcs && client.suite != NoSuite
    requires var o := Emit(e, FinishedRecs(env, e, []), c, Connected); t == State(client, o.end, [], o.out)
    ensures ServerAhead(env, t) && t.s.role == Server
  {
    hide Hs, Numbered, Master, FinishedRecs, Emit, FinishedFits;
    var recs := FinishedRecs(env, e, []);
    assert e.hash + [] == e.hash;
    FinishedRecsFacts(env, e, []);
    EmitFacts(e, recs, c, Connected);
    var k := |t.toC|;
    NumberedTake(recs, e.mseqS, k);
    PartOfFlight(recs, k, Finished);
    if EndsWith(t.toC, Finished) {
      FitsAfter(env, e, [recs[1].msg], t.s);
    }
  }

  lemma DoneKeeps(env: Env, g: State, e: Event)
    requires g.c.role == Client && g.s.role == Server && (ClientDone(g) || ServerDone(g))
    ensures Inv(env, Step(env, g, e))
  {
    hide Handle, Greet, FinishedFits, Numbered;
    var t := Step(env, g, e);
    if ClientDone(g) {
      assert ClientDone(t);
    } else {
      if e.AtClient? && g.toC != [] {
        HsPop(g.toC);
        assert g.toC[0].Ccs?;
      }
      assert g.toC + [] == g.toC;
      assert ServerDone(t);
    }
  }

  lemma StepKeeps(env: Env, g: State, e: Event)
    requires Inv(env, g)
    ensures Inv(env, Step(env, g, e))
  {
    hide Before, ServerAhead, ClientAhead, ClientDone, ServerDone, Receive;
    if ClientDone(g) || ServerDone(g) {
      DoneKeeps(env, g, e);
    } else {
      match e
      case Connect(body) => ConnectKeeps(env, g, body);
      case AtClient(c) => AtClientKeeps(env, g, c);
      case AtServer(c) => AtServerKeeps(env, g, c);
    }
  }

  lemma AtClientKeeps(env: Env, g: State, c: Choice)
    requires g.c.role == Client && g.s.role == Server && (Before(env, g) || ServerAhead(env, g) || ClientAhead(env, g))
    ensures Inv(env, Step(env, g, AtClient(c)))
  {
    hide Hs, Numbered, FinishedFits, Receive, FromServer, FromClient;
    if g.toC != [] {
      if Before(env, g) {
        BeforeAtClient(env, g, c);
        SameServer(env, g, c);
      } else {
        ServerAheadAtClient(env, g, c);
      }
    }
  }

  lemma SameServer(env: Env, g: State, c: Choice)
    ensures Step(env, g, AtClient(c)).s == g.s
  {
    hide Receive;
  }

  lemma AtServerKeeps(env: Env, g: State, c: Choice)
    requires g.c.role == Client && g.s.role == Server && (Before(env, g) || ServerAhead(env, g) || ClientAhead(env, g))
    ensures Inv(env, Step(env, g, AtServer(c)))
  {
    hide Hs, Numbered, FinishedFits, Receive, FromServer, FromClient;
    if g.toS != [] {
      if Before(env, g) {
        BeforeAtServer(env, g, c);
      } else {
        ClientAheadAtServer(env, g, c);
      }
    }
  }

  // ---- runs ----

  function Run(env: Env, g: State, events: seq<Event>): State {
    if events == [] then g else Step(env, Run(env, g, events[..|events| - 1]), events[|events| - 1])
  }

  lemma InitInv(env: Env, g: State)
    requires Init(g)
    ensures Inv(env, g)
  {
    assert Before(env, g);
  }

  /** In every reachable state what the two ends have fed to their handshake hashes since the
      ClientHello with the cookie are prefixes of one another. */
  lemma {:induction false} TranscriptsAgree(env: Env, g: State, events: seq<Event>)
    requires Init(g)
    ensures Inv(env, Run(env, g, events))
    ensures Comparable(Run(env, g, events).c.hash, Run(env, g, events).s.hash)
  {
    hide Inv, Step, Init;
    if events == [] {
      InitInv(env, g);
    } else {
      TranscriptsAgree(env, g, events[..|events| - 1]);
      StepKeeps(env, Run(env, g, events[..|events| - 1]), events[|events| - 1]);
    }
    InvComparable(env, Run(env, g, events));
  }

  /** The server checks a Finished against exactly what the client had hashed when it made it;
      so with equal pre-master secrets the check succeeds. */
  lemma ServerCheckSucceeds(env: Env, g: State)
    requires Inv(env, g) && g.toS != [] && IsKind(g.toS[0], Finished) && g.s.phase == WaitFinished
    ensures g.c.hash == g.s.hash + [g.toS[0].msg] && |g.s.hash| >= 2
    ensures g.toS[0].msg.body == env.verify(Master(env, g.c.pre, g.s.hash), Client, g.s.hash)
    ensures g.c.pre == g.s.pre ==> g.toS[0].msg.body == VerifyData(env, g.s, Client)
  {
    hide Numbered, FromClient, Master;
    HsPop(g.toS);
    PopFacts(g.toS, g.s.mseqR, Finished);
    assert Hs(g.toS) == [g.toS[0].msg];
    assert g.c.hash[..|g.c.hash| - 1] == g.s.hash;
  }

  lemma ClientCheckSucceeds(env: Env, g: State)
    requires Inv(env, g) && g.toC != [] && IsKind(g.toC[0], Finished) && g.c.phase == WaitFinished
    ensures g.s.hash == g.c.hash + [g.toC[0].msg] && |g.c.hash| >= 2
    ensures g.toC[0].msg.body == env.verify(Master(env, g.s.pre, g.c.hash), Server, g.c.hash)
    ensures g.c.pre == g.s.pre ==> g.toC[0].msg.body == VerifyData(env, g.c, Server)
  {
    hide Numbered, FromServer, Master;
    HsPop(g.toC);
    PopFacts(g.toC, g.c.mseqR, Finished);
    EmptyHs();
    assert Hs(g.toC) == [g.toC[0].msg];
    assert g.s.hash[..|g.s.hash| - 1] == g.c.hash;
  }

  /** Ends that know both hello messages derive one master secret and one key block from one
      pre-master secret. */
  lemma SameKeyBlock(env: Env, g: State)
    requires Inv(env, g) && g.c.pre == g.s.pre && |g.c.hash| >= 2 && |g.s.hash| >= 2
    ensures Master(env, g.c.pre, g.c.hash) == Master(env, g.s.pre, g.s.hash)
    ensures KeyBlockOf(env, g.c.pre, g.c.hash) == KeyBlockOf(env, g.s.pre, g.s.hash)
  {
    hide Before, ServerAhead, ClientAhead, ClientDone, ServerDone;
    InvComparable(env, g);
  }
}
