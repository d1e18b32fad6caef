/**
 Good handshakes go through: with a server whose messages meet the conditions of module
 HandshakeSteps and an environment that does not object, a run reaches the end, for full and
 resumed handshakes, renegotiations, TLS and DTLS (handshake_client.cc, handshake.cc).
 */
module HandshakeCompletion {
  import opened Wrappers
  import opened ClientHandshake
  import opened HandshakeSteps
  import opened HandshakeRuns

  /** What a server has decided on: its ServerHello, its certificates, and whether it asks for the client's. */
  datatype Plan = Plan(hello: Message, chain: seq<seq<bv8>>, request: bool)

  /** The environment objects to nothing and keeps nobody waiting. */
  predicate Willing(hs: Handshake, plan: Plan, a: Answers) {
    && a.fine && !a.offerEarlyData && a.signatureOk && a.certificate.Succeed? && a.sign.Succeed? && a.complete.Succeed?
    && a.channelIdKey && a.sessionContextValid
    && if hs.connection.establishedCerts.Some? then hs.connection.establishedCerts.value == plan.chain else a.verify.VerifyOk?
  }

  /** The session and the session id that the ClientHello offers. */
  function SessionSent(hs: Handshake, a: Answers): Option<Session> {
    if hs.session.Some? && a.sessionUsable then hs.session else None
  }

  function IdSent(cfg: Config, hs: Handshake, a: Answers): seq<bv8> {
    var session := SessionSent(hs, a);
    if session.Some? && !hs.connection.initialComplete && session.value.id != [] then session.value.id
    else if cfg.maxVersion >= 0x0304 then a.freshSessionId else hs.sessionId
  }

  /** The server resumes the session that is offered. */
  predicate Resumes(hs: Handshake, plan: Plan, a: Answers)
    requires plan.hello.ServerHello?
  {
    var session := SessionSent(hs, a);
    session.Some? && !hs.connection.initialComplete && session.value.id != [] && plan.hello.sessionId == session.value.id
  }

  /**
   A ServerHello of an enabled version up to TLS 1.2, the one of the connection if it has one,
   with an allowed cipher and no compression, that either resumes the session offered, with its
   version, cipher and extended master secret, or does not echo the id that was sent; and a
   certificate where the cipher needs one.
   */
  predicate Sound(cfg: Config, hs: Handshake, plan: Plan, a: Answers) {
    && plan.hello.ServerHello?
    && var m := plan.hello;
       && m.version in cfg.versions && m.version < 0x0304 && m.compression == 0
       && (hs.connection.haveVersion ==> m.version == hs.connection.version)
       && m.cipher.Some? && cfg.allowed(m.cipher.value, m.version)
       && (!m.cipher.value.pskAuth ==> plan.chain != [])
       && if Resumes(hs, plan, a) then
            var session := hs.session.value;
            session.version == m.version && session.cipher == m.cipher.value && session.ems == m.extensions.ems
          else m.sessionId == [] || m.sessionId != IdSent(cfg, hs, a)
  }

  // On the way

  /** The message the server has next for a handshake in this state. */
  function Due(cfg: Config, plan: Plan, hs: Handshake): Message {
    if hs.state <= READ_SERVER_HELLO then plan.hello
    else if hs.state == READ_SERVER_CERTIFICATE then Certificate([], plan.chain)
    else if hs.state == READ_CERTIFICATE_STATUS then CertificateStatus([])
    else if hs.state == READ_SERVER_KEY_EXCHANGE && hs.cipher.Some? && hs.cipher.value.keyExchange.Ecdhe? then
      ServerKeyExchange([])
    else if hs.state <= READ_CERTIFICATE_REQUEST && Authenticated(hs) && plan.request then CertificateRequest([])
    else if hs.state <= READ_SERVER_HELLO_DONE then ServerHelloDone([], [])
    else if hs.state == READ_SESSION_TICKET then NewSessionTicket([], [0])
    else Finished([], cfg.finishedMac(hs.Master(), hs.transcript, true))
  }

  /** The state cannot be left without a message. */
  predicate Needs(hs: Handshake) {
    || hs.state == READ_HELLO_VERIFY_REQUEST || hs.state == READ_SERVER_HELLO
    || (hs.state == READ_SERVER_CERTIFICATE && Authenticated(hs))
    || (hs.state == READ_CERTIFICATE_STATUS && hs.extensions.statusExpected)
    || hs.state == READ_SERVER_KEY_EXCHANGE
    || (hs.state == READ_CERTIFICATE_REQUEST && Authenticated(hs))
    || hs.state == READ_SERVER_HELLO_DONE
    || (hs.state == READ_SESSION_TICKET && hs.extensions.ticketExpected)
    || hs.state == READ_SERVER_FINISHED
  }

  /** Nothing is queued but the message that is due. */
  predicate Queued(cfg: Config, plan: Plan, hs: Handshake) {
    hs.inbox == [] || (hs.inbox == [Due(cfg, plan, hs)] && (Needs(hs) || hs.state == READ_CERTIFICATE_REQUEST))
  }

  /** What is known before the ServerHello. */
  predicate Offering(cfg: Config, first: Handshake, a: Answers, hs: Handshake) {
    && hs.connection == first.connection
    && if hs.state == START_CONNECT then hs == first
       else hs.session == SessionSent(first, a) && hs.sessionId == IdSent(cfg, first, a) && !hs.earlyDataOffered
  }

  /** What is known after it. */
  predicate Agreed(first: Handshake, plan: Plan, a: Answers, hs: Handshake)
    requires plan.hello.ServerHello?
  {
    && hs.cipher == plan.hello.cipher && hs.cipher.Some? && hs.connection.version == plan.hello.version
    && hs.session.Some? == Resumes(first, plan, a)
    && (hs.session.Some? ==> hs.state >= SEND_CLIENT_FINISHED)
    && (hs.state < DONE ==> hs.connection.establishedCerts == first.connection.establishedCerts)
    && (READ_CERTIFICATE_STATUS <= hs.state <= VERIFY_SERVER_CERTIFICATE && Authenticated(hs) ==> hs.certs == plan.chain)
  }

  ghost predicate OnTrack(cfg: Config, first: Handshake, plan: Plan, a: Answers, hs: Handshake) {
    && Sound(cfg, first, plan, a) && Willing(first, plan, a)
    && 0 <= hs.state <= DONE && hs.state != TLS13 && Queued(cfg, plan, hs)
    && if hs.state <= READ_SERVER_HELLO then Offering(cfg, first, a, hs) else Agreed(first, plan, a, hs)
  }

  /** A wait that ends by itself or with the ChangeCipherSpec. */
  predicate Passing(wait: Wait) {
    wait.Ok? || wait.Flush? || wait.EarlyReturn? || wait.ReadChangeCipherSpec?
  }

  /** The step moves on, and stays on track. */
  ghost predicate Proceeds(cfg: Config, first: Handshake, plan: Plan, a: Answers, hs: Handshake, o: Outcome) {
    o.Advanced? && OnTrack(cfg, first, plan, a, o.hs) && Passing(o.wait) && 0 <= RankOf(o.hs) < RankOf(hs)
  }

  ghost predicate Ready(cfg: Config, first: Handshake, plan: Plan, a: Answers, hs: Handshake) {
    OnTrack(cfg, first, plan, a, hs) && (Needs(hs) ==> hs.inbox != [])
  }

  // State by state

  lemma FirstStates(cfg: Config, first: Handshake, plan: Plan, a: Answers, hs: Handshake)
    requires Ready(cfg, first, plan, a, hs) && hs.state <= READ_HELLO_VERIFY_REQUEST
    ensures Proceeds(cfg, first, plan, a, hs, Step(cfg, hs, a))
  {
    hide Hashes, Drains, AllFree, NoCookie, NoHello, Leaves, AddMessage, NextMessage;
  }

  lemma HelloState(cfg: Config, first: Handshake, plan: Plan, a: Answers, hs: Handshake)
    requires Ready(cfg, first, plan, a, hs) && hs.state == READ_SERVER_HELLO
    ensures Proceeds(cfg, first, plan, a, hs, DoReadServerHello(cfg, hs, a))
  {
    ServerHelloIsChecked(cfg, hs, a);
    hide DoReadServerHello, Hashes, Drains, AllFree, NoCookie, NoHello;
  }

  lemma ReadCertificateState(cfg: Config, first: Handshake, plan: Plan, a: Answers, hs: Handshake)
    requires Ready(cfg, first, plan, a, hs) && hs.state == READ_SERVER_CERTIFICATE
    ensures Proceeds(cfg, first, plan, a, hs, DoReadServerCertificate(hs, a))
  {
    hide Hashes, Drains, AllFree, NoCookie, NoHello, Advances, Rests, Leaves, Goes, AddMessage, HashMessage, NextMessage,
         Handshake.Master, Resumes;
    if Authenticated(hs) {
      assert hs.inbox == [Certificate([], plan.chain)] && plan.chain != [];
    } else {
      assert hs.inbox == [];
    }
  }

  lemma StatusState(cfg: Config, first: Handshake, plan: Plan, a: Answers, hs: Handshake)
    requires Ready(cfg, first, plan, a, hs) && hs.state == READ_CERTIFICATE_STATUS
    ensures Proceeds(cfg, first, plan, a, hs, DoReadCertificateStatus(hs, a))
  {
    hide Hashes, Drains, AllFree, NoCookie, NoHello, Advances, Rests, Leaves, Goes, AddMessage, HashMessage, NextMessage,
         Handshake.Master, Sound;
  }

  lemma VerifyState(cfg: Config, first: Handshake, plan: Plan, a: Answers, hs: Handshake)
    requires Ready(cfg, first, plan, a, hs) && hs.state == VERIFY_SERVER_CERTIFICATE
    ensures Proceeds(cfg, first, plan, a, hs, DoVerifyServerCertificate(cfg, hs, a))
  {
    hide Hashes, Drains, AllFree, NoCookie, NoHello, Advances, Rests, Leaves, Goes, AddMessage, HashMessage, NextMessage,
         Handshake.Master, Sound;
  }

  lemma ServerKeyState(cfg: Config, first: Handshake, plan: Plan, a: Answers, hs: Handshake)
    requires Ready(cfg, first, plan, a, hs) && hs.state == READ_SERVER_KEY_EXCHANGE
    ensures hs.cipher.Some? && Proceeds(cfg, first, plan, a, hs, DoReadServerKeyExchange(hs, a))
  {
    hide Hashes, Drains, AllFree, NoCookie, NoHello, Advances, Rests, Leaves, Goes, AddMessage, HashMessage, NextMessage,
         Handshake.Master, Sound;
  }

  lemma RequestState(cfg: Config, first: Handshake, plan: Plan, a: Answers, hs: Handshake)
    requires Ready(cfg, first, plan, a, hs) && hs.state == READ_CERTIFICATE_REQUEST
    ensures Proceeds(cfg, first, plan, a, hs, DoReadCertificateRequest(hs, a))
  {
    hide Hashes, Drains, AllFree, NoCookie, NoHello, Advances, Rests, Leaves, Goes, AddMessage, HashMessage, NextMessage,
         Handshake.Master, Sound;
  }

  lemma HelloDoneState(cfg: Config, first: Handshake, plan: Plan, a: Answers, hs: Handshake)
    requires Ready(cfg, first, plan, a, hs) && hs.state == READ_SERVER_HELLO_DONE
    ensures Proceeds(cfg, first, plan, a, hs, DoReadServerHelloDone(hs, a))
  {
    hide Hashes, Drains, AllFree, NoCookie, NoHello, Advances, Rests, Leaves, Goes, AddMessage, HashMessage, NextMessage,
         Handshake.Master, Sound;
  }

  lemma CertificateState(cfg: Config, first: Handshake, plan: Plan, a: Answers, hs: Handshake)
    requires Ready(cfg, first, plan, a, hs) && hs.state == SEND_CLIENT_CERTIFICATE
    ensures Proceeds(cfg, first, plan, a, hs, DoSendClientCertificate(hs, a))
  {
    hide Hashes, Drains, AllFree, NoCookie, NoHello, Advances, Rests, Leaves, Goes, AddMessage, HashMessage, NextMessage,
         Sound, Due, Resumes, Handshake.Master;
    assert hs.inbox == [];
    if hs.certRequest && (a.hasCertificate || hs.connection.version != SSL3) {
      var named := hs.(hasCertificate := a.hasCertificate);
      assert DoSendClientCertificate(hs, a) == Sends(named, CertificateOut, a.out, SEND_CLIENT_KEY_EXCHANGE, Ok);
      hide DoSendClientCertificate;
    }
  }

  lemma KeyExchangeState(cfg: Config, first: Handshake, plan: Plan, a: Answers, hs: Handshake)
    requires Ready(cfg, first, plan, a, hs) && hs.state == SEND_CLIENT_KEY_EXCHANGE
    ensures Proceeds(cfg, first, plan, a, hs, DoSendClientKeyExchange(hs, a))
  {
    hide Hashes, Drains, AllFree, NoCookie, NoHello, Advances, Rests, Leaves, AddMessage, HashMessage, NextMessage,
         Sound, Due, Handshake.Master;
  }

  lemma CertificateVerifyState(cfg: Config, first: Handshake, plan: Plan, a: Answers, hs: Handshake)
    requires Ready(cfg, first, plan, a, hs) && hs.state == SEND_CLIENT_CERTIFICATE_VERIFY
    ensures Proceeds(cfg, first, plan, a, hs, DoSendClientCertificateVerify(cfg, hs, a))
  {
    hide Hashes, Drains, AllFree, NoCookie, NoHello, Advances, Rests, Leaves, AddMessage, HashMessage, NextMessage,
         Sound, Due, Handshake.Master;
  }

  lemma FinishedState(cfg: Config, first: Handshake, plan: Plan, a: Answers, hs: Handshake)
    requires Ready(cfg, first, plan, a, hs) && hs.state == SEND_CLIENT_FINISHED
    ensures Proceeds(cfg, first, plan, a, hs, DoSendClientFinished(cfg, hs, a))
  {
    hide Hashes, Taken, BeforeFinished, AllFree, NoCookie, NoHello, Leaves, AddMessage, HashMessage, NextMessage,
         Sound, Due, Handshake.Master;
  }

  lemma FlightState(cfg: Config, first: Handshake, plan: Plan, a: Answers, hs: Handshake)
    requires Ready(cfg, first, plan, a, hs) && hs.state == FINISH_FLIGHT
    ensures Proceeds(cfg, first, plan, a, hs, DoFinishFlight(cfg, hs, a))
  {
    hide Hashes, Drains, AllFree, NoCookie, NoHello, Advances, Rests, Leaves, AddMessage, HashMessage, NextMessage,
         Sound, Due, Handshake.Master, CanFalseStart;
  }

  lemma TicketState(cfg: Config, first: Handshake, plan: Plan, a: Answers, hs: Handshake)
    requires Ready(cfg, first, plan, a, hs) && hs.state == READ_SESSION_TICKET
    ensures Proceeds(cfg, first, plan, a, hs, DoReadSessionTicket(hs, a))
  {
    hide Hashes, Drains, AllFree, NoCookie, NoHello, Advances, Rests, Leaves, AddMessage, HashMessage, NextMessage,
         Sound, Handshake.Master;
  }

  lemma KeysState(cfg: Config, first: Handshake, plan: Plan, a: Answers, hs: Handshake)
    requires Ready(cfg, first, plan, a, hs) && hs.state == PROCESS_CHANGE_CIPHER_SPEC
    ensures Proceeds(cfg, first, plan, a, hs, DoProcessChangeCipherSpec(hs, a))
  {
    hide Hashes, Drains, AllFree, NoCookie, NoHello, Advances, Rests, Leaves, AddMessage, HashMessage, NextMessage,
         Sound, Due, Handshake.Master;
  }

  lemma ServerFinishedState(cfg: Config, first: Handshake, plan: Plan, a: Answers, hs: Handshake)
    requires Ready(cfg, first, plan, a, hs) && hs.state == READ_SERVER_FINISHED
    ensures Proceeds(cfg, first, plan, a, hs, DoReadServerFinished(cfg, hs, a))
  {
    hide Hashes, Drains, AllFree, NoCookie, NoHello, Advances, Rests, Leaves, AddMessage, HashMessage, NextMessage,
         Sound, Handshake.Master;
  }

  lemma LastState(cfg: Config, first: Handshake, plan: Plan, a: Answers, hs: Handshake)
    requires Ready(cfg, first, plan, a, hs) && hs.state == FINISH_CLIENT_HANDSHAKE
    ensures Proceeds(cfg, first, plan, a, hs, DoFinishClientHandshake(hs, a))
  {
    hide Hashes, Drains, AllFree, NoCookie, NoHello, Advances, Rests, Leaves, AddMessage, HashMessage, NextMessage,
         Sound, Due, Handshake.Master;
  }

  lemma StepProceeds(cfg: Config, first: Handshake, plan: Plan, a: Answers, hs: Handshake)
    requires Ready(cfg, first, plan, a, hs) && hs.state != DONE
    ensures Proceeds(cfg, first, plan, a, hs, Step(cfg, hs, a))
  {
    hide Ready, Proceeds, DoReadServerHello, DoReadServerCertificate, DoReadCertificateStatus, DoVerifyServerCertificate,
         DoReadServerKeyExchange, DoReadCertificateRequest, DoReadServerHelloDone, DoSendClientCertificate,
         DoSendClientKeyExchange, DoSendClientCertificateVerify, DoSendClientFinished, DoFinishFlight, DoReadSessionTicket,
         DoProcessChangeCipherSpec, DoReadServerFinished, DoFinishClientHandshake;
    StatesOnTrack(cfg, first, plan, a, hs);
    if hs.state <= READ_HELLO_VERIFY_REQUEST {
      FirstStates(cfg, first, plan, a, hs);
    } else if hs.state == READ_SERVER_HELLO {
      HelloState(cfg, first, plan, a, hs);
    } else if hs.state == READ_SERVER_CERTIFICATE {
      ReadCertificateState(cfg, first, plan, a, hs);
    } else if hs.state == READ_CERTIFICATE_STATUS {
      StatusState(cfg, first, plan, a, hs);
    } else if hs.state == VERIFY_SERVER_CERTIFICATE {
      VerifyState(cfg, first, plan, a, hs);
    } else if hs.state == READ_SERVER_KEY_EXCHANGE {
      CipherOnTrack(cfg, first, plan, a, hs);
      ServerKeyState(cfg, first, plan, a, hs);
    } else if hs.state == READ_CERTIFICATE_REQUEST {
      RequestState(cfg, first, plan, a, hs);
    } else if hs.state == READ_SERVER_HELLO_DONE {
      HelloDoneState(cfg, first, plan, a, hs);
    } else if hs.state == SEND_CLIENT_CERTIFICATE {
      CertificateState(cfg, first, plan, a, hs);
    } else if hs.state == SEND_CLIENT_KEY_EXCHANGE {
      KeyExchangeState(cfg, first, plan, a, hs);
    } else if hs.state == SEND_CLIENT_CERTIFICATE_VERIFY {
      CertificateVerifyState(cfg, first, plan, a, hs);
    } else if hs.state == SEND_CLIENT_FINISHED {
      FinishedState(cfg, first, plan, a, hs);
    } else if hs.state == FINISH_FLIGHT {
      FlightState(cfg, first, plan, a, hs);
    } else if hs.state == READ_SESSION_TICKET {
      TicketState(cfg, first, plan, a, hs);
    } else if hs.state == PROCESS_CHANGE_CIPHER_SPEC {
      KeysState(cfg, first, plan, a, hs);
    } else if hs.state == READ_SERVER_FINISHED {
      ServerFinishedState(cfg, first, plan, a, hs);
    } else {
      LastState(cfg, first, plan, a, hs);
    }
  }

  lemma CipherOnTrack(cfg: Config, first: Handshake, plan: Plan, a: Answers, hs: Handshake)
    requires Ready(cfg, first, plan, a, hs) && hs.state > READ_SERVER_HELLO
    ensures hs.cipher.Some?
  {
  }

  lemma StatesOnTrack(cfg: Config, first: Handshake, plan: Plan, a: Answers, hs: Handshake)
    requires Ready(cfg, first, plan, a, hs)
    ensures 0 <= hs.state <= DONE && hs.state != TLS13
  {
  }

  /** Where a message is needed and none is there, the step waits for one, and the one due keeps the handshake on track. */
  lemma StepWaits(cfg: Config, first: Handshake, plan: Plan, a: Answers, hs: Handshake)
    requires OnTrack(cfg, first, plan, a, hs) && Needs(hs) && hs.inbox == []
    ensures var o := Step(cfg, hs, a);
            && o.Paused? && o.hs == hs && o.events == [] && (o.wait.ReadHello? || o.wait.ReadMessage?)
    ensures Ready(cfg, first, plan, a, Arrive(hs, [Due(cfg, plan, hs)]))
  {
    hide Hashes, Drains, AllFree, NoCookie, NoHello, Sound;
    assert [] + [Due(cfg, plan, hs)] == [Due(cfg, plan, hs)];
  }

  // The run

  lemma RunOn(cfg: Config, m: Machine, input: Input, inputs: seq<Input>)
    ensures Run(cfg, m, [input] + inputs) == Run(cfg, Tick(cfg, m, input), inputs)
  {
    assert ([input] + inputs)[1..] == inputs;
  }

  /** A message is waited for and arrives: two inputs, after which the handshake is ready for it. */
  lemma MessageComes(cfg: Config, first: Handshake, plan: Plan, a: Answers, m: Machine)
    returns (now: Machine, pause: Input, arrival: Input)
    requires OnTrack(cfg, first, plan, a, m.hs) && m.wait.Ok? && Needs(m.hs) && m.hs.inbox == [] && m.hs.state != DONE
    ensures now == Tick(cfg, Tick(cfg, m, pause), arrival)
    ensures now.wait.Ok? && Ready(cfg, first, plan, a, now.hs) && RankOf(now.hs) == RankOf(m.hs) && now.hs.state == m.hs.state
  {
    StepWaits(cfg, first, plan, a, m.hs);
    hide Step, OnTrack, Needs, Due, Ready;
    pause, arrival := Input(a, true, []), Input(a, true, [Due(cfg, plan, m.hs)]);
    now := Tick(cfg, Tick(cfg, m, pause), arrival);
    assert m.log + [] == m.log;
    assert now.hs == Arrive(m.hs, [Due(cfg, plan, m.hs)]);
  }

  lemma PassingEnds(cfg: Config, a: Answers, m: Machine)
    requires Passing(m.wait) && !m.wait.Ok?
    ensures var now := Tick(cfg, m, Input(a, true, [])); now.hs == m.hs && now.wait.Ok?
  {
    assert m.hs.inbox + [] == m.hs.inbox;
  }

  /** From anywhere on the way the end can be reached. */
  lemma {:induction false} EndIsReached(cfg: Config, first: Handshake, plan: Plan, a: Answers, m: Machine)
    returns (inputs: seq<Input>)
    requires OnTrack(cfg, first, plan, a, m.hs) && Passing(m.wait) && 0 <= RankOf(m.hs)
    ensures var now := Run(cfg, m, inputs);
            now.hs.state == DONE && now.wait.Ok? && OnTrack(cfg, first, plan, a, now.hs)
    decreases RankOf(m.hs), if m.wait.Ok? then 1 else 2
  {
    hide Tick, Step, OnTrack, Needs, RankOf, Due;
    if !m.wait.Ok? {
      PassingEnds(cfg, a, m);
      var input := Input(a, true, []);
      var rest := EndIsReached(cfg, first, plan, a, Tick(cfg, m, input));
      inputs := [input] + rest;
      RunOn(cfg, m, input, rest);
    } else if m.hs.state == DONE {
      inputs := [];
    } else if Needs(m.hs) && m.hs.inbox == [] {
      var now, pause, arrival := MessageComes(cfg, first, plan, a, m);
      var rest := MovesOn(cfg, first, plan, a, now);
      inputs := [pause] + ([arrival] + rest);
      RunOn(cfg, m, pause, [arrival] + rest);
      RunOn(cfg, Tick(cfg, m, pause), arrival, rest);
    } else {
      inputs := MovesOn(cfg, first, plan, a, m);
    }
  }

  lemma {:induction false} MovesOn(cfg: Config, first: Handshake, plan: Plan, a: Answers, m: Machine) returns (inputs: seq<Input>)
    requires Ready(cfg, first, plan, a, m.hs) && m.wait.Ok? && m.hs.state != DONE && 0 <= RankOf(m.hs)
    ensures var now := Run(cfg, m, inputs);
            now.hs.state == DONE && now.wait.Ok? && OnTrack(cfg, first, plan, a, now.hs)
    decreases RankOf(m.hs), 0
  {
    StepProceeds(cfg, first, plan, a, m.hs);
    hide Step, OnTrack, Needs, RankOf;
    var input := Input(a, true, []);
    var rest := EndIsReached(cfg, first, plan, a, Tick(cfg, m, input));
    inputs := [input] + rest;
    RunOn(cfg, m, input, rest);
  }

  /**
   Main result: whatever sound choices the server makes, and whatever session is offered, there
   is a run that completes the handshake with these choices.
   */
  lemma SoundHandshakesComplete(cfg: Config, hs: Handshake, plan: Plan, a: Answers) returns (inputs: seq<Input>)
    requires Initial(hs) && hs.inbox == [] && Sound(cfg, hs, plan, a) && Willing(hs, plan, a)
    ensures var m := Run(cfg, Start(hs), inputs);
            && m.hs.state == DONE && m.wait.Ok?
            && m.hs.connection.version == plan.hello.version && m.hs.cipher == plan.hello.cipher
            && (m.hs.session.Some? <==> Resumes(hs, plan, a))
  {
    inputs := EndIsReached(cfg, hs, plan, a, Start(hs));
  }

  /** A plan without resumption, in which the ServerHello has no session id. */
  function FullPlan(version: nat, cipher: Cipher, extensions: Extensions, chain: seq<seq<bv8>>, request: bool): Plan {
    Plan(ServerHello([], version, [], Some(cipher), 0, extensions), chain, request)
  }

  /** Every enabled version below TLS 1.3 can be negotiated with every cipher allowed for it, whatever is offered. */
  lemma EveryCipherCanBeNegotiated(cfg: Config, hs: Handshake, version: nat, cipher: Cipher, extensions: Extensions,
                                   chain: seq<seq<bv8>>, request: bool, a: Answers)
    returns (inputs: seq<Input>)
    requires Initial(hs) && hs.inbox == [] && !hs.connection.haveVersion
    requires version in cfg.versions && version < 0x0304 && cfg.allowed(cipher, version) && (!cipher.pskAuth ==> chain != [])
    requires Willing(hs, FullPlan(version, cipher, extensions, chain, request), a)
    ensures var m := Run(cfg, Start(hs), inputs);
            && m.hs.state == DONE && m.wait.Ok? && m.hs.session.None?
            && m.hs.connection.version == version && m.hs.cipher == Some(cipher)
  {
    hide Run, Initial, Willing;
    inputs := SoundHandshakesComplete(cfg, hs, FullPlan(version, cipher, extensions, chain, request), a);
  }
}
