/**
 Whole runs of the client handshake: the states of module ClientHandshake under the loop of
 ssl_run_handshake, which resolves what each step waits for (handshake.cc).  What every run
 keeps, what holds when it completes, and that waiting leaves no trace.
 */
module HandshakeRuns {
  import opened Wrappers
  import opened ClientHandshake

  /** The handshake, what it waits for, and what it has done so far. */
  datatype Machine = Machine(hs: Handshake, wait: Wait, log: seq<Event>)

  /**
   One input: the answers to a step, and whether the operation waited for has made progress
   and which handshake messages it has brought.
   */
  datatype Input = Input(answers: Answers, progress: bool, arrived: seq<Message>)

  /** Messages join the queue of those that have arrived. */
  function Arrive(hs: Handshake, messages: seq<Message>): Handshake {
    hs.(inbox := hs.inbox + messages)
  }

  /** The waits during which the transport is read. */
  predicate Reads(wait: Wait) {
    wait.ReadHello? || wait.ReadMessage? || wait.ReadChangeCipherSpec?
  }

  /** One turn of the loop of ssl_run_handshake, or of the loop of ssl_client_handshake inside it. */
  function Tick(cfg: Config, m: Machine, input: Input): Machine {
    if m.wait.Error? then m
    else if m.wait.Ok? then
      if m.hs.state == DONE then m else Apply(m, Step(cfg, m.hs, input.answers))
    else if m.wait.Flush? then if input.progress then m.(wait := Ok) else m
    else if Reads(m.wait) then
      var now := m.(hs := Arrive(m.hs, input.arrived));
      if !input.progress then now else Resolved(now)
    else m.(wait := Ok)
  }

  /** What was waited for has come; a ChangeCipherSpec is noted. */
  function Resolved(m: Machine): Machine {
    if m.wait.ReadChangeCipherSpec? then m.(wait := Ok, log := m.log + [ChangeCipherSpecAccepted])
    else m.(wait := Ok)
  }

  function Apply(m: Machine, o: Outcome): Machine {
    match o
    case Failed => m.(wait := Error)
    case Paused(hs, wait, events) => Machine(hs, wait, m.log + events)
    case Advanced(hs, wait, events) => Machine(hs, wait, m.log + events)
  }

  function Run(cfg: Config, m: Machine, inputs: seq<Input>): Machine
    decreases |inputs|
  {
    if inputs == [] then m else Run(cfg, Tick(cfg, m, inputs[0]), inputs[1..])
  }

  /** A new SSL_HANDSHAKE, possibly of a renegotiation. */
  predicate Initial(hs: Handshake) {
    && hs.state == START_CONNECT && hs.transcript == [] && !hs.inFalseStart && !hs.certRequest && !hs.pendingKeyOp
    && hs.connection.haveVersion == hs.connection.initialComplete
  }

  function Start(hs: Handshake): Machine {
    Machine(hs, Ok, [])
  }

  function TranscriptOf(log: seq<Event>): seq<bv8> {
    HashAll([], log)
  }

  /** What may come after what. */
  ghost predicate EventOk(cfg: Config, before: seq<Event>, e: Event) {
    match e
    case ReadKeysOn => ChangeCipherSpecAccepted in before
    case ServerFinishedMatched(master, data) =>
      ReadKeysOn in before && data == cfg.finishedMac(master, TranscriptOf(before), true)
    case Sent(kind, bytes) =>
      kind.FinishedOut? ==>
        && WriteKeysOn in before
        && exists master: nat :: bytes == cfg.finishedMessage(cfg.finishedMac(master, TranscriptOf(before), false))
    case TranscriptReset =>
      before != [] && before[|before| - 1].Consumed? && before[|before| - 1].message.HelloVerifyRequest?
    case _ => true
  }

  ghost predicate Ordered(cfg: Config, log: seq<Event>) {
    forall k | 0 <= k < |log| :: EventOk(cfg, log[..k], log[k])
  }

  lemma OrderedOne(cfg: Config, log: seq<Event>, e: Event)
    requires Ordered(cfg, log) && EventOk(cfg, log, e)
    ensures Ordered(cfg, log + [e])
  {
    hide EventOk;
    var l := log + [e];
    forall k | 0 <= k < |l|
      ensures EventOk(cfg, l[..k], l[k])
    {
      if k < |log| {
        assert l[..k] == log[..k];
      } else {
        assert l[..k] == log;
      }
    }
  }

  lemma {:induction false} OrderedFree(cfg: Config, log: seq<Event>, events: seq<Event>)
    requires Ordered(cfg, log) && AllFree(events)
    ensures Ordered(cfg, log + events)
    decreases |events|
  {
    hide Ordered;
    if events == [] {
      assert log + events == log;
    } else {
      assert Free(events[0]);
      OrderedOne(cfg, log, events[0]);
      OrderedFree(cfg, log + [events[0]], events[1..]);
      assert log + [events[0]] + events[1..] == log + events;
    }
  }

  // What holds in every state

  predicate AfterHello(hs: Handshake) {
    READ_SERVER_CERTIFICATE <= hs.state <= DONE && hs.connection.version < TLS1_3
  }

  predicate KeysSwitched(hs: Handshake) {
    || hs.state == READ_SERVER_FINISHED || hs.state == FINISH_CLIENT_HANDSHAKE || hs.state == DONE
    || (hs.session.Some? && (hs.state == SEND_CLIENT_FINISHED || hs.state == FINISH_FLIGHT))
  }

  predicate ServerFinishedRead(hs: Handshake) {
    KeysSwitched(hs) && hs.state != READ_SERVER_FINISHED
  }

  predicate Matched(log: seq<Event>, master: nat) {
    exists k | 0 <= k < |log| :: log[k].ServerFinishedMatched? && log[k].master == master
  }

  /** A Certificate message with this chain was received. */
  predicate Received(log: seq<Event>, chain: seq<seq<bv8>>) {
    exists k | 0 <= k < |log| :: log[k].Consumed? && log[k].message.Certificate? && log[k].message.chain == chain
  }

  /** A resumed handshake uses the cipher and the version of the session that was offered. */
  predicate ResumesOffered(hs: Handshake) {
    hs.session.Some? ==>
      && hs.state >= SEND_CLIENT_FINISHED && hs.offered.Some?
      && hs.offered.value.version == hs.session.value.version == hs.connection.version
      && hs.offered.value.cipher == hs.session.value.cipher && hs.cipher == Some(hs.offered.value.cipher)
      && hs.offered.value.master == hs.session.value.master
  }

  /**
   A full handshake with a certificate cipher has verified the certificate it received and,
   where there must be one, the signature; every full handshake derives its own master secret.
   */
  predicate Authenticates(hs: Handshake, log: seq<Event>) {
    && (hs.session.None? && hs.state >= SEND_CLIENT_CERTIFICATE_VERIFY ==> MasterDerived(hs.newMaster) in log)
    && (hs.session.None? && hs.CertificateAuth() ==>
      && (hs.state >= READ_CERTIFICATE_STATUS ==> Received(log, hs.certs))
      && (hs.state >= READ_SERVER_KEY_EXCHANGE ==> CertificateVerified(hs.certs) in log)
      && (hs.state >= READ_CERTIFICATE_REQUEST && hs.cipher.value.NeedsServerKeyExchange() ==> SignatureVerified in log))
  }

  /** Data may be written early only in a full TLS 1.2 handshake with an ephemeral key. */
  predicate FalseStarts(cfg: Config, hs: Handshake) {
    hs.inFalseStart ==>
      && !cfg.dtls && hs.connection.version == TLS1_2 && hs.session.None? && hs.state >= READ_SESSION_TICKET
      && hs.cipher.Some? && hs.cipher.value.NeedsServerKeyExchange() && hs.cipher.value.aead
  }

  /** The session offered, if any, is the one configured. */
  predicate OffersConfigured(hs: Handshake, configured: Option<Session>) {
    if hs.state == START_CONNECT then hs.session == configured else hs.offered.Some? ==> hs.offered == configured
  }

  predicate Facts(cfg: Config, hs: Handshake, wait: Wait, log: seq<Event>) {
    && FalseStarts(cfg, hs)
    && 0 <= hs.state <= DONE && (hs.state == DONE ==> wait == Ok)
    && (wait == ReadChangeCipherSpec ==> hs.state == PROCESS_CHANGE_CIPHER_SPEC)
    && (ENTER_EARLY_DATA <= hs.state <= READ_SERVER_HELLO ==> hs.session == hs.offered)
    && (hs.state == TLS13 ==> hs.connection.version >= TLS1_3)
    && (READ_SERVER_CERTIFICATE <= hs.state <= READ_SERVER_FINISHED ==> hs.connection.version < TLS1_3)
    && (AfterHello(hs) ==>
          && hs.cipher.Some? && ResumesOffered(hs) && Authenticates(hs, log)
          && (hs.state == PROCESS_CHANGE_CIPHER_SPEC && wait != ReadChangeCipherSpec ==> ChangeCipherSpecAccepted in log)
          && (KeysSwitched(hs) ==> ReadKeysOn in log)
          && (hs.state == DONE && hs.session.None? ==> hs.connection.establishedCerts == Some(hs.certs))
          && (ServerFinishedRead(hs) ==> Matched(log, hs.Master())))
  }

  /** Facts that do not depend on the state stay when the log grows. */
  lemma MatchedGrows(log: seq<Event>, events: seq<Event>, master: nat)
    ensures Matched(log, master) || Matched(events, master) ==> Matched(log + events, master)
  {
    if Matched(log, master) {
      var k :| 0 <= k < |log| && log[k].ServerFinishedMatched? && log[k].master == master;
      assert (log + events)[k] == log[k];
    } else if Matched(events, master) {
      var k :| 0 <= k < |events| && events[k].ServerFinishedMatched? && events[k].master == master;
      assert (log + events)[|log| + k] == events[k];
    }
  }

  lemma ReceivedGrows(log: seq<Event>, events: seq<Event>, chain: seq<seq<bv8>>)
    ensures Received(log, chain) || Received(events, chain) ==> Received(log + events, chain)
  {
    if Received(log, chain) {
      var k :| 0 <= k < |log| && log[k].Consumed? && log[k].message.Certificate? && log[k].message.chain == chain;
      assert (log + events)[k] == log[k];
    } else if Received(events, chain) {
      var k :| 0 <= k < |events| && events[k].Consumed? && events[k].message.Certificate? && events[k].message.chain == chain;
      assert (log + events)[|log| + k] == events[k];
    }
  }

  predicate KeepsFacts(cfg: Config, hs: Handshake, log: seq<Event>, o: Outcome) {
    o.Advanced? ==> Facts(cfg, o.hs, o.wait, log + o.events)
  }

  lemma EarlySteps(cfg: Config, hs: Handshake, log: seq<Event>, a: Answers)
    requires Facts(cfg, hs, Ok, log) && hs.state <= READ_HELLO_VERIFY_REQUEST
    ensures KeepsFacts(cfg, hs, log, Step(cfg, hs, a))
  {
    hide Hashes, Drains, HashAll, Leaves, Goes, Sends, HashMessage, NextMessage, AllFree, NoCookie, NoHello, Renewed;
  }

  lemma ClassicHelloStep(cfg: Config, hs: Handshake, log: seq<Event>, m: Message, a: Answers)
    requires Facts(cfg, hs, Ok, log) && hs.state == READ_SERVER_HELLO && hs.inbox != [] && m == hs.inbox[0] && m.ServerHello?
    requires VersionAcceptable(cfg, hs, m.version) && m.version < TLS1_3
    ensures KeepsFacts(cfg, hs, log, ReadClassicHello(cfg, hs, m, a))
  {
    hide Hashes, Drains, HashAll, Leaves, HashMessage, NextMessage, AllFree, NoCookie, NoHello, VersionAcceptable;
  }

  lemma HelloStep(cfg: Config, hs: Handshake, log: seq<Event>, a: Answers)
    requires Facts(cfg, hs, Ok, log) && hs.state == READ_SERVER_HELLO
    ensures KeepsFacts(cfg, hs, log, DoReadServerHello(cfg, hs, a))
  {
    hide Hashes, Drains, HashAll, Goes, AllFree, NoCookie, NoHello, ReadClassicHello, VersionAcceptable;
    if hs.inbox != [] && hs.inbox[0].ServerHello? && VersionAcceptable(cfg, hs, hs.inbox[0].version)
       && hs.inbox[0].version < TLS1_3 {
      ClassicHelloStep(cfg, hs, log, hs.inbox[0], a);
    }
  }

  lemma Tls13Step(cfg: Config, hs: Handshake, log: seq<Event>, a: Answers)
    requires Facts(cfg, hs, Ok, log) && hs.state == TLS13
    ensures KeepsFacts(cfg, hs, log, DoTls13(hs, a))
  {
    hide Hashes, Drains, HashAll, Leaves, Goes, Sends, HashMessage, NextMessage, AllFree, NoCookie, NoHello, Renewed;
  }

  lemma CertificateSteps(cfg: Config, hs: Handshake, log: seq<Event>, a: Answers)
    requires Facts(cfg, hs, Ok, log) && READ_SERVER_CERTIFICATE <= hs.state <= READ_CERTIFICATE_STATUS
    ensures KeepsFacts(cfg, hs, log, Step(cfg, hs, a))
  {
    hide Hashes, Drains, HashAll, Leaves, Goes, Sends, HashMessage, NextMessage, AllFree, NoCookie, NoHello, Renewed;
    var o := Step(cfg, hs, a);
    if o.Advanced? {
      assert hs.state == READ_SERVER_CERTIFICATE && hs.CertificateAuth() ==> o.events[0] == Consumed(hs.inbox[0]);
      ReceivedGrows(log, o.events, o.hs.certs);
    }
  }

  lemma VerifyStep(cfg: Config, hs: Handshake, log: seq<Event>, a: Answers)
    requires Facts(cfg, hs, Ok, log) && hs.state == VERIFY_SERVER_CERTIFICATE
    ensures KeepsFacts(cfg, hs, log, DoVerifyServerCertificate(cfg, hs, a))
  {
    hide Hashes, Drains, HashAll, Leaves, Goes, Sends, HashMessage, NextMessage, AllFree, NoCookie, NoHello, Renewed;
    var o := DoVerifyServerCertificate(cfg, hs, a);
    if o.Advanced? {
      ReceivedGrows(log, o.events, o.hs.certs);
    }
  }

  lemma KeyExchangeStep(cfg: Config, hs: Handshake, log: seq<Event>, a: Answers)
    requires Facts(cfg, hs, Ok, log) && hs.state == READ_SERVER_KEY_EXCHANGE
    ensures KeepsFacts(cfg, hs, log, Step(cfg, hs, a))
  {
    hide Hashes, Drains, HashAll, Leaves, Goes, Sends, HashMessage, NextMessage, AllFree, NoCookie, NoHello, Renewed;
    var o := Step(cfg, hs, a);
    if o.Advanced? {
      ReceivedGrows(log, o.events, o.hs.certs);
    }
  }

  lemma RequestSteps(cfg: Config, hs: Handshake, log: seq<Event>, a: Answers)
    requires Facts(cfg, hs, Ok, log) && READ_CERTIFICATE_REQUEST <= hs.state <= READ_SERVER_HELLO_DONE
    ensures KeepsFacts(cfg, hs, log, Step(cfg, hs, a))
  {
    hide Hashes, Drains, HashAll, Leaves, Goes, Sends, HashMessage, NextMessage, AllFree, NoCookie, NoHello, Renewed;
    var o := Step(cfg, hs, a);
    if o.Advanced? {
      ReceivedGrows(log, o.events, o.hs.certs);
    }
  }

  lemma CertificateStep(cfg: Config, hs: Handshake, log: seq<Event>, a: Answers)
    requires Facts(cfg, hs, Ok, log) && hs.state == SEND_CLIENT_CERTIFICATE
    ensures KeepsFacts(cfg, hs, log, DoSendClientCertificate(hs, a))
  {
    hide Hashes, Drains, HashAll, Leaves, Goes, Sends, HashMessage, NextMessage, AllFree, NoCookie, NoHello, Renewed;
    var o := DoSendClientCertificate(hs, a);
    if o.Advanced? {
      ReceivedGrows(log, o.events, o.hs.certs);
    }
  }

  lemma ClientKeyExchangeStep(cfg: Config, hs: Handshake, log: seq<Event>, a: Answers)
    requires Facts(cfg, hs, Ok, log) && hs.state == SEND_CLIENT_KEY_EXCHANGE
    ensures KeepsFacts(cfg, hs, log, DoSendClientKeyExchange(hs, a))
  {
    hide Hashes, Drains, HashAll, Leaves, Goes, Sends, HashMessage, NextMessage, AllFree, NoCookie, NoHello, Renewed;
    var o := DoSendClientKeyExchange(hs, a);
    if o.Advanced? {
      ReceivedGrows(log, o.events, o.hs.certs);
    }
  }

  lemma CertificateVerifyStep(cfg: Config, hs: Handshake, log: seq<Event>, a: Answers)
    requires Facts(cfg, hs, Ok, log) && hs.state == SEND_CLIENT_CERTIFICATE_VERIFY
    ensures KeepsFacts(cfg, hs, log, DoSendClientCertificateVerify(cfg, hs, a))
  {
    hide Hashes, Drains, HashAll, Leaves, Goes, Sends, HashMessage, NextMessage, AllFree, NoCookie, NoHello, Renewed;
    var o := DoSendClientCertificateVerify(cfg, hs, a);
    if o.Advanced? {
      ReceivedGrows(log, o.events, o.hs.certs);
    }
  }

  lemma ClientFinishedStep(cfg: Config, hs: Handshake, log: seq<Event>, a: Answers)
    requires Facts(cfg, hs, Ok, log) && hs.state == SEND_CLIENT_FINISHED
    ensures KeepsFacts(cfg, hs, log, DoSendClientFinished(cfg, hs, a))
  {
    hide Hashes, Drains, HashAll, Leaves, Goes, Sends, HashMessage, NextMessage, AllFree, NoCookie, NoHello, Renewed,
         BeforeFinished, ClosingEvents;
    var o := DoSendClientFinished(cfg, hs, a);
    if o.Advanced? {
      MatchedGrows(log, o.events, o.hs.Master());
      ReceivedGrows(log, o.events, o.hs.certs);
    }
  }

  lemma FinishFlightStep(cfg: Config, hs: Handshake, log: seq<Event>, a: Answers)
    requires Facts(cfg, hs, Ok, log) && hs.state == FINISH_FLIGHT
    ensures KeepsFacts(cfg, hs, log, DoFinishFlight(cfg, hs, a))
  {
    hide Hashes, Drains, HashAll, Leaves, Goes, Sends, HashMessage, NextMessage, AllFree, NoCookie, NoHello, Renewed;
    var o := DoFinishFlight(cfg, hs, a);
    if o.Advanced? {
      MatchedGrows(log, o.events, o.hs.Master());
      ReceivedGrows(log, o.events, o.hs.certs);
    }
  }

  lemma TicketStep(cfg: Config, hs: Handshake, log: seq<Event>, a: Answers)
    requires Facts(cfg, hs, Ok, log) && hs.state == READ_SESSION_TICKET
    ensures KeepsFacts(cfg, hs, log, Step(cfg, hs, a))
  {
    hide Hashes, Drains, HashAll, Leaves, Goes, Sends, HashMessage, NextMessage, AllFree, NoCookie, NoHello, Renewed;
    var o := Step(cfg, hs, a);
    if o.Advanced? {
      ReceivedGrows(log, o.events, o.hs.certs);
    }
  }

  lemma KeysStep(cfg: Config, hs: Handshake, log: seq<Event>, a: Answers)
    requires Facts(cfg, hs, Ok, log) && hs.state == PROCESS_CHANGE_CIPHER_SPEC
    ensures KeepsFacts(cfg, hs, log, DoProcessChangeCipherSpec(hs, a))
  {
    hide Hashes, Drains, HashAll, Leaves, Goes, Sends, HashMessage, NextMessage, AllFree, NoCookie, NoHello, Renewed;
    var o := DoProcessChangeCipherSpec(hs, a);
    if o.Advanced? {
      MatchedGrows(log, o.events, o.hs.Master());
      ReceivedGrows(log, o.events, o.hs.certs);
    }
  }

  lemma MatchStep(cfg: Config, hs: Handshake, log: seq<Event>, a: Answers)
    requires Facts(cfg, hs, Ok, log) && hs.state == READ_SERVER_FINISHED
    ensures KeepsFacts(cfg, hs, log, DoReadServerFinished(cfg, hs, a))
  {
    hide Hashes, Drains, HashAll, Leaves, Goes, Sends, HashMessage, NextMessage, AllFree, NoCookie, NoHello, Renewed;
    var o := DoReadServerFinished(cfg, hs, a);
    if o.Advanced? {
      assert o.events[0].ServerFinishedMatched?;
      MatchedGrows(log, o.events, o.hs.Master());
      ReceivedGrows(log, o.events, o.hs.certs);
    }
  }

  lemma LastStep(cfg: Config, hs: Handshake, log: seq<Event>, a: Answers)
    requires Facts(cfg, hs, Ok, log) && hs.state == FINISH_CLIENT_HANDSHAKE
    ensures KeepsFacts(cfg, hs, log, DoFinishClientHandshake(hs, a))
  {
    hide Hashes, Drains, HashAll, Leaves, Goes, Sends, HashMessage, NextMessage, AllFree, NoCookie, NoHello, Renewed;
    var o := DoFinishClientHandshake(hs, a);
    if o.Advanced? {
      MatchedGrows(log, o.events, o.hs.Master());
      ReceivedGrows(log, o.events, o.hs.certs);
    }
  }

  lemma StepKeepsFacts(cfg: Config, hs: Handshake, log: seq<Event>, a: Answers)
    requires Facts(cfg, hs, Ok, log) && hs.state != DONE
    ensures KeepsFacts(cfg, hs, log, Step(cfg, hs, a))
  {
    hide KeepsFacts;
    hide DoReadServerHello, DoTls13, DoVerifyServerCertificate, DoSendClientCertificate, DoSendClientKeyExchange,
         DoSendClientCertificateVerify, DoSendClientFinished, DoFinishFlight, DoProcessChangeCipherSpec,
         DoReadServerFinished, DoFinishClientHandshake;
    if hs.state == READ_SERVER_HELLO {
      HelloStep(cfg, hs, log, a);
    } else if hs.state == TLS13 {
      Tls13Step(cfg, hs, log, a);
    } else if hs.state == VERIFY_SERVER_CERTIFICATE {
      VerifyStep(cfg, hs, log, a);
    } else if hs.state == SEND_CLIENT_CERTIFICATE {
      CertificateStep(cfg, hs, log, a);
    } else if hs.state == SEND_CLIENT_KEY_EXCHANGE {
      ClientKeyExchangeStep(cfg, hs, log, a);
    } else if hs.state == SEND_CLIENT_CERTIFICATE_VERIFY {
      CertificateVerifyStep(cfg, hs, log, a);
    } else if hs.state == SEND_CLIENT_FINISHED {
      ClientFinishedStep(cfg, hs, log, a);
    } else if hs.state == FINISH_FLIGHT {
      FinishFlightStep(cfg, hs, log, a);
    } else if hs.state == PROCESS_CHANGE_CIPHER_SPEC {
      KeysStep(cfg, hs, log, a);
    } else if hs.state == READ_SERVER_FINISHED {
      MatchStep(cfg, hs, log, a);
    } else if hs.state == FINISH_CLIENT_HANDSHAKE {
      LastStep(cfg, hs, log, a);
    } else {
      hide Step;
      EarlierStepKeepsFacts(cfg, hs, log, a);
    }
  }

  lemma EarlierStepKeepsFacts(cfg: Config, hs: Handshake, log: seq<Event>, a: Answers)
    requires Facts(cfg, hs, Ok, log)
    requires
      || hs.state <= READ_HELLO_VERIFY_REQUEST || READ_SERVER_CERTIFICATE <= hs.state <= READ_CERTIFICATE_STATUS
      || hs.state == READ_SESSION_TICKET
      || READ_SERVER_KEY_EXCHANGE <= hs.state <= READ_SERVER_HELLO_DONE
    ensures KeepsFacts(cfg, hs, log, Step(cfg, hs, a))
  {
    hide Step, KeepsFacts;
    if hs.state <= READ_HELLO_VERIFY_REQUEST {
      EarlySteps(cfg, hs, log, a);
    } else if hs.state <= READ_CERTIFICATE_STATUS {
      CertificateSteps(cfg, hs, log, a);
    } else if hs.state == READ_SERVER_KEY_EXCHANGE {
      KeyExchangeStep(cfg, hs, log, a);
    } else if hs.state <= READ_SERVER_HELLO_DONE {
      RequestSteps(cfg, hs, log, a);
    } else {
      TicketStep(cfg, hs, log, a);
    }
  }

  lemma StepKeepsOffer(cfg: Config, hs: Handshake, configured: Option<Session>, a: Answers)
    requires OffersConfigured(hs, configured) && 0 <= hs.state < DONE
    ensures var o := Step(cfg, hs, a); o.Advanced? ==> OffersConfigured(o.hs, configured)
  {
    hide Hashes, Sends;
    if hs.state == START_CONNECT {
      assert Step(cfg, hs, a) == DoStartConnect(cfg, hs, a);
    } else {
      hide Step;
    }
  }

  // Order

  /** A log in order, with the transcript it says. */
  ghost predicate Follows(cfg: Config, hs: Handshake, log: seq<Event>) {
    Ordered(cfg, log) && hs.transcript == TranscriptOf(log)
  }

  ghost predicate KeepsOrder(cfg: Config, log: seq<Event>, o: Outcome) {
    o.Advanced? ==> Ordered(cfg, log + o.events)
  }

  lemma CookieStep(cfg: Config, hs: Handshake, log: seq<Event>, a: Answers)
    requires Ordered(cfg, log)
    ensures KeepsOrder(cfg, log, DoReadHelloVerifyRequest(hs, a))
  {
    hide Hashes, Drains, HashAll, Leaves, Goes, AddMessage, NextMessage, Ordered;
    var o := DoReadHelloVerifyRequest(hs, a);
    if o.Advanced? && o.events != [] {
      var m := hs.inbox[0];
      assert o.events == [Consumed(m)] + [TranscriptReset] + [Sent(ClientHelloOut, a.out)];
      OrderedOne(cfg, log, Consumed(m));
      OrderedOne(cfg, log + [Consumed(m)], TranscriptReset);
      OrderedOne(cfg, log + [Consumed(m)] + [TranscriptReset], Sent(ClientHelloOut, a.out));
      assert log + o.events == log + [Consumed(m)] + [TranscriptReset] + [Sent(ClientHelloOut, a.out)];
    } else {
      assert log + [] == log;
    }
  }

  /** The client's Finished covers everything before it. */
  lemma FinishedStep(cfg: Config, hs: Handshake, log: seq<Event>, a: Answers)
    requires Follows(cfg, hs, log)
    ensures KeepsOrder(cfg, log, DoSendClientFinished(cfg, hs, a))
  {
    hide HashAll, Drains, Sends, Ordered, BeforeFinished;
    var o := DoSendClientFinished(cfg, hs, a);
    if o.Advanced? {
      var before := BeforeFinished(hs, a);
      var finished := Sent(FinishedOut, cfg.finishedMessage(cfg.finishedMac(hs.Master(), before.hs.transcript, false)));
      assert o.events == before.events + [finished];
      OrderedFree(cfg, log, before.events);
      HashAllAppend([], log, before.events);
      assert TranscriptOf(log + before.events) == before.hs.transcript;
      assert finished.bytes == cfg.finishedMessage(cfg.finishedMac(hs.Master(), TranscriptOf(log + before.events), false));
      OrderedOne(cfg, log + before.events, finished);
      assert log + o.events == log + before.events + [finished];
    }
  }

  lemma ReadKeysStep(cfg: Config, hs: Handshake, log: seq<Event>, a: Answers)
    requires Ordered(cfg, log) && ChangeCipherSpecAccepted in log
    ensures KeepsOrder(cfg, log, DoProcessChangeCipherSpec(hs, a))
  {
    hide Hashes, Drains, HashAll, Goes, Ordered;
    OrderedOne(cfg, log, ReadKeysOn);
  }

  /** The server's Finished is checked against the transcript without itself. */
  lemma ServerFinishedStep(cfg: Config, hs: Handshake, log: seq<Event>, a: Answers)
    requires Follows(cfg, hs, log) && ReadKeysOn in log
    ensures KeepsOrder(cfg, log, DoReadServerFinished(cfg, hs, a))
  {
    hide Hashes, Drains, HashAll, Leaves, HashMessage, NextMessage, Ordered;
    var o := DoReadServerFinished(cfg, hs, a);
    if o.Advanced? {
      var m := hs.inbox[0];
      var matched := ServerFinishedMatched(hs.Master(), m.verifyData);
      OrderedOne(cfg, log, matched);
      OrderedOne(cfg, log + [matched], Consumed(m));
      assert log + o.events == log + [matched] + [Consumed(m)];
    }
  }

  lemma StepKeepsOrder(cfg: Config, hs: Handshake, log: seq<Event>, a: Answers)
    requires Follows(cfg, hs, log) && Facts(cfg, hs, Ok, log) && hs.state != DONE
    ensures KeepsOrder(cfg, log, Step(cfg, hs, a))
  {
    hide Ordered, AllFree, DoReadHelloVerifyRequest, DoSendClientFinished, DoProcessChangeCipherSpec,
         DoReadServerFinished;
    var o := Step(cfg, hs, a);
    if hs.state == READ_HELLO_VERIFY_REQUEST {
      CookieStep(cfg, hs, log, a);
    } else if hs.state == SEND_CLIENT_FINISHED {
      FinishedStep(cfg, hs, log, a);
    } else if hs.state == PROCESS_CHANGE_CIPHER_SPEC {
      ReadKeysStep(cfg, hs, log, a);
    } else if hs.state == READ_SERVER_FINISHED {
      ServerFinishedStep(cfg, hs, log, a);
    } else {
      hide Step, Facts, Hashes, Drains;
      if o.Advanced? {
        OrderedFree(cfg, log, o.events);
      }
    }
  }

  /** A HelloVerifyRequest has the transcript, with the ClientHello before it, forgotten at once. */
  predicate CookiesForgotten(log: seq<Event>) {
    forall k | 0 <= k < |log| && IsCookie(log[k]) :: k + 1 < |log| && log[k + 1].TranscriptReset?
  }

  lemma StepForgetsCookies(cfg: Config, hs: Handshake, log: seq<Event>, a: Answers)
    requires CookiesForgotten(log) && 0 <= hs.state < DONE
    ensures var o := Step(cfg, hs, a); o.Advanced? ==> CookiesForgotten(log + o.events)
  {
    hide Leaves, Goes, AddMessage, NextMessage, Hashes, Drains, AllFree, NoHello, Rests;
    if hs.state == READ_HELLO_VERIFY_REQUEST {
      assert Step(cfg, hs, a) == DoReadHelloVerifyRequest(hs, a);
    } else {
      hide Step;
      assert Step(cfg, hs, a).Advanced? ==> NoCookie(Step(cfg, hs, a).events);
    }
  }

  // Runs

  /** What every state of every run satisfies. */
  ghost predicate Invariant(cfg: Config, configured: Option<Session>, m: Machine) {
    && Facts(cfg, m.hs, m.wait, m.log)
    && OffersConfigured(m.hs, configured)
    && Follows(cfg, m.hs, m.log)
    && CookiesForgotten(m.log)
  }

  lemma StartIsInvariant(cfg: Config, hs: Handshake)
    requires Initial(hs)
    ensures Invariant(cfg, hs.session, Start(hs))
  {
  }

  /** The accepted ChangeCipherSpec and new messages are all that waiting adds. */
  lemma WaitKeepsFacts(cfg: Config, hs: Handshake, wait: Wait, log: seq<Event>)
    requires Facts(cfg, hs, wait, log)
    ensures wait != ReadChangeCipherSpec ==> Facts(cfg, hs, Ok, log)
    ensures Facts(cfg, hs, Ok, log + [ChangeCipherSpecAccepted])
  {
    MatchedGrows(log, [ChangeCipherSpecAccepted], hs.Master());
    ReceivedGrows(log, [ChangeCipherSpecAccepted], hs.certs);
  }

  lemma ArriveKeepsFacts(cfg: Config, hs: Handshake, wait: Wait, log: seq<Event>, messages: seq<Message>)
    requires Facts(cfg, hs, wait, log)
    ensures Facts(cfg, Arrive(hs, messages), wait, log)
  {
    hide Matched, Received;
  }

  lemma AcceptKeepsOrder(cfg: Config, hs: Handshake, log: seq<Event>)
    requires Follows(cfg, hs, log) && CookiesForgotten(log)
    ensures Follows(cfg, hs, log + [ChangeCipherSpecAccepted]) && CookiesForgotten(log + [ChangeCipherSpecAccepted])
  {
    hide Ordered, HashAll;
    OrderedOne(cfg, log, ChangeCipherSpecAccepted);
    HashAllAppend([], log, [ChangeCipherSpecAccepted]);
    HashOne(TranscriptOf(log), ChangeCipherSpecAccepted);
  }

  lemma PauseKeepsFacts(cfg: Config, hs: Handshake, wait: Wait, log: seq<Event>, pending: bool)
    requires Facts(cfg, hs, Ok, log) && hs.state != DONE && wait != ReadChangeCipherSpec
    ensures Facts(cfg, hs.(pendingKeyOp := pending), wait, log)
  {
    hide Matched, Received;
  }

  lemma StepKeepsInvariant(cfg: Config, configured: Option<Session>, m: Machine, a: Answers)
    requires Invariant(cfg, configured, m) && m.wait.Ok? && m.hs.state != DONE
    ensures Invariant(cfg, configured, Apply(m, Step(cfg, m.hs, a)))
  {
    hide Step, Facts, Ordered, CookiesForgotten, HashAll, Drains, AllFree, NoCookie, NoHello;
    var o := Step(cfg, m.hs, a);
    StateIsInRange(cfg, m.hs, m.wait, m.log);
    if o.Paused? {
      PauseLeavesNoTrace(cfg, m.hs, a);
      PauseKeepsFacts(cfg, m.hs, o.wait, m.log, o.hs.pendingKeyOp);
      assert m.log + o.events == m.log;
    } else if o.Advanced? {
      StepKeepsFacts(cfg, m.hs, m.log, a);
      StepKeepsOffer(cfg, m.hs, configured, a);
      StepKeepsOrder(cfg, m.hs, m.log, a);
      StepForgetsCookies(cfg, m.hs, m.log, a);
      HashAllAppend([], m.log, o.events);
    } else {
      ErrorKeepsFacts(cfg, m.hs, m.log);
    }
  }

  lemma StateIsInRange(cfg: Config, hs: Handshake, wait: Wait, log: seq<Event>)
    requires Facts(cfg, hs, wait, log)
    ensures 0 <= hs.state <= DONE
  {
  }

  lemma ErrorKeepsFacts(cfg: Config, hs: Handshake, log: seq<Event>)
    requires Facts(cfg, hs, Ok, log) && hs.state != DONE
    ensures Facts(cfg, hs, Error, log)
  {
  }

  lemma TickKeepsInvariant(cfg: Config, configured: Option<Session>, m: Machine, input: Input)
    requires Invariant(cfg, configured, m)
    ensures Invariant(cfg, configured, Tick(cfg, m, input))
  {
    hide Step, Apply, Facts, Follows, CookiesForgotten;
    if m.wait.Ok? && m.hs.state != DONE {
      StepKeepsInvariant(cfg, configured, m, input.answers);
    } else if Reads(m.wait) {
      var hs := Arrive(m.hs, input.arrived);
      ArriveKeepsFacts(cfg, m.hs, m.wait, m.log, input.arrived);
      WaitKeepsFacts(cfg, hs, m.wait, m.log);
      ArriveKeepsOrder(cfg, m.hs, m.log, input.arrived);
      AcceptKeepsOrder(cfg, hs, m.log);
    } else {
      WaitKeepsFacts(cfg, m.hs, m.wait, m.log);
    }
  }

  lemma ArriveKeepsOrder(cfg: Config, hs: Handshake, log: seq<Event>, messages: seq<Message>)
    requires Follows(cfg, hs, log)
    ensures Follows(cfg, Arrive(hs, messages), log)
  {
    hide Ordered, HashAll;
  }

  lemma {:induction false} RunKeepsInvariant(cfg: Config, configured: Option<Session>, m: Machine, inputs: seq<Input>)
    requires Invariant(cfg, configured, m)
    ensures Invariant(cfg, configured, Run(cfg, m, inputs))
    decreases |inputs|
  {
    hide Invariant, Tick;
    if inputs != [] {
      TickKeepsInvariant(cfg, configured, m, inputs[0]);
      RunKeepsInvariant(cfg, configured, Tick(cfg, m, inputs[0]), inputs[1..]);
    }
  }

  /**
   The ChangeCipherSpec was accepted before the read keys changed, and under the new keys a
   Finished was read whose contents are the MAC, under this master secret, of all that was
   hashed before it.
   */
  ghost predicate FinishedUnderNewKeys(cfg: Config, log: seq<Event>, master: nat) {
    exists i, j, k | 0 <= i < j < k < |log| ::
      && log[i].ChangeCipherSpecAccepted? && log[j].ReadKeysOn? && log[k].ServerFinishedMatched?
      && log[k].verifyData == cfg.finishedMac(master, TranscriptOf(log[..k]), true)
  }

  lemma MatchedUnderNewKeys(cfg: Config, log: seq<Event>, master: nat)
    requires Ordered(cfg, log) && Matched(log, master)
    ensures FinishedUnderNewKeys(cfg, log, master)
  {
    hide HashAll, TranscriptOf;
    var k :| 0 <= k < |log| && log[k].ServerFinishedMatched? && log[k].master == master;
    assert EventOk(cfg, log[..k], log[k]);
    var j :| 0 <= j < k && log[..k][j] == ReadKeysOn;
    assert EventOk(cfg, log[..j], log[j]);
    var i :| 0 <= i < j && log[..j][i] == ChangeCipherSpecAccepted;
    assert log[i].ChangeCipherSpecAccepted? && log[j].ReadKeysOn?;
  }

  /** Main result: what a completed handshake of TLS 1.2 or below has established, whatever the peer and the callbacks did. */
  lemma CompletedHandshakesAreSafe(cfg: Config, hs: Handshake, inputs: seq<Input>)
    requires Initial(hs)
    ensures var m := Run(cfg, Start(hs), inputs);
            m.hs.state == DONE && m.hs.connection.version < TLS1_3 ==>
              && FinishedUnderNewKeys(cfg, m.log, m.hs.Master())
              && m.hs.cipher.Some?
              && (m.hs.session.None? ==> MasterDerived(m.hs.Master()) in m.log)
              && (m.hs.session.None? && m.hs.cipher.value.CertificateAuth() ==>
                    && Received(m.log, m.hs.certs) && CertificateVerified(m.hs.certs) in m.log
                    && m.hs.connection.establishedCerts == Some(m.hs.certs)
                    && (m.hs.cipher.value.NeedsServerKeyExchange() ==> SignatureVerified in m.log))
              && (m.hs.session.Some? ==>
                    && hs.session.Some?
                    && m.hs.Master() == hs.session.value.master
                    && m.hs.cipher.value == hs.session.value.cipher
                    && m.hs.connection.version == hs.session.value.version)
  {
    hide Run, Ordered, Matched, Received, FinishedUnderNewKeys, CookiesForgotten;
    var m := Run(cfg, Start(hs), inputs);
    StartIsInvariant(cfg, hs);
    RunKeepsInvariant(cfg, hs.session, Start(hs), inputs);
    if m.hs.state == DONE && m.hs.connection.version < TLS1_3 {
      MatchedUnderNewKeys(cfg, m.log, m.hs.Master());
    }
  }

  /** Main result: data is written early without TLS 1.3 only to a server that has been authenticated. */
  lemma FalseStartIsAuthenticated(cfg: Config, hs: Handshake, inputs: seq<Input>)
    requires Initial(hs)
    ensures var m := Run(cfg, Start(hs), inputs);
            m.hs.inFalseStart ==>
              && !cfg.dtls && m.hs.connection.version == TLS1_2 && m.hs.session.None? && m.hs.cipher.Some?
              && m.hs.cipher.value.NeedsServerKeyExchange() && m.hs.cipher.value.aead
              && (m.hs.cipher.value.CertificateAuth() ==> CertificateVerified(m.hs.certs) in m.log && SignatureVerified in m.log)
  {
    hide Run, Ordered, Matched, Received, CookiesForgotten, Follows;
    StartIsInvariant(cfg, hs);
    RunKeepsInvariant(cfg, hs.session, Start(hs), inputs);
  }

  /**
   Main result: the transcript is exactly the messages sent and consumed since the last
   reset, in order, and a reset comes right after each HelloVerifyRequest and nowhere else.
   */
  lemma TranscriptIsConserved(cfg: Config, hs: Handshake, inputs: seq<Input>)
    requires Initial(hs)
    ensures var m := Run(cfg, Start(hs), inputs);
            && m.hs.transcript == TranscriptOf(m.log)
            && CookiesForgotten(m.log)
            && forall k | 0 <= k < |m.log| && m.log[k].TranscriptReset? :: k > 0 && IsCookie(m.log[k - 1])
  {
    hide Run, Facts;
    var m := Run(cfg, Start(hs), inputs);
    StartIsInvariant(cfg, hs);
    RunKeepsInvariant(cfg, hs.session, Start(hs), inputs);
    forall k | 0 <= k < |m.log| && m.log[k].TranscriptReset?
      ensures k > 0 && IsCookie(m.log[k - 1])
    {
      assert EventOk(cfg, m.log[..k], m.log[k]);
    }
  }

  /** Main result: an error is final, and an erroneous handshake is never complete. */
  lemma {:induction false} ErrorsAreFinal(cfg: Config, configured: Option<Session>, m: Machine, inputs: seq<Input>)
    requires Invariant(cfg, configured, m) && m.wait.Error?
    ensures Run(cfg, m, inputs) == m && m.hs.state != DONE
    decreases |inputs|
  {
    hide Follows, CookiesForgotten;
    if inputs != [] {
      ErrorsAreFinal(cfg, configured, m, inputs[1..]);
    }
  }

  lemma StepConserves(cfg: Config, m: Machine, a: Answers)
    requires 0 <= m.hs.state < DONE
    ensures var m' := Apply(m, Step(cfg, m.hs, a));
            Taken(m.log) + m.hs.inbox == Taken(m'.log) + m'.hs.inbox && 0 <= m'.hs.state <= DONE
  {
    hide Step, Taken, Hashes, AllFree, NoCookie, NoHello;
    var o := Step(cfg, m.hs, a);
    if o.Paused? {
      assert m.log + [] == m.log;
    } else if o.Advanced? {
      TakenAppend(m.log, o.events);
      assert Taken(m.log) + (Taken(o.events) + o.hs.inbox) == Taken(m.log) + Taken(o.events) + o.hs.inbox;
    }
  }

  lemma ArriveConserves(hs: Handshake, messages: seq<Message>)
    ensures Arrive(hs, messages).inbox == hs.inbox + messages && Arrive(hs, messages).state == hs.state
  {
  }

  lemma ResolvedConserves(m: Machine)
    ensures Taken(Resolved(m).log) == Taken(m.log) && Resolved(m).hs == m.hs
  {
    hide Taken;
    TakenAppend(m.log, [ChangeCipherSpecAccepted]);
    TakenNone([ChangeCipherSpecAccepted]);
    assert Taken(m.log) + [] == Taken(m.log);
  }

  lemma TickConserves(cfg: Config, m: Machine, input: Input)
    requires 0 <= m.hs.state <= DONE
    ensures var m' := Tick(cfg, m, input);
            && Taken(m.log) + (m.hs.inbox + ArrivalsNow(m, input)) == Taken(m'.log) + m'.hs.inbox
            && 0 <= m'.hs.state <= DONE
  {
    assert m.hs.inbox + [] == m.hs.inbox;
    if m.wait.Ok? && m.hs.state != DONE {
      hide Step, Apply, Taken;
      StepConserves(cfg, m, input.answers);
    } else {
      hide Step, Apply, Taken, Arrive;
      var now := m.(hs := Arrive(m.hs, input.arrived));
      ArriveConserves(m.hs, input.arrived);
      ResolvedConserves(now);
      ResolvedConserves(m);
    }
  }

  /**
   Main result: the queue of incoming messages is conserved.  The messages consumed so far and
   those still queued are, in order, all that have ever arrived, each once.
   */
  lemma {:induction false} MessagesAreConserved(cfg: Config, m: Machine, inputs: seq<Input>)
    requires 0 <= m.hs.state <= DONE
    ensures var now := Run(cfg, m, inputs);
            Taken(m.log) + m.hs.inbox + Arrivals(cfg, m, inputs) == Taken(now.log) + now.hs.inbox
    decreases |inputs|
  {
    hide Tick, Taken, ArrivalsNow;
    if inputs != [] {
      var m' := Tick(cfg, m, inputs[0]);
      TickConserves(cfg, m, inputs[0]);
      MessagesAreConserved(cfg, m', inputs[1..]);
      assert Taken(m.log) + m.hs.inbox + (ArrivalsNow(m, inputs[0]) + Arrivals(cfg, m', inputs[1..]))
          == Taken(m.log) + (m.hs.inbox + ArrivalsNow(m, inputs[0])) + Arrivals(cfg, m', inputs[1..]);
    }
  }

  /** The messages that an input brings to a machine. */
  function ArrivalsNow(m: Machine, input: Input): seq<Message> {
    if Reads(m.wait) then input.arrived else []
  }

  /** The messages that a run of inputs brings. */
  function Arrivals(cfg: Config, m: Machine, inputs: seq<Input>): seq<Message>
    decreases |inputs|
  {
    if inputs == [] then [] else ArrivalsNow(m, inputs[0]) + Arrivals(cfg, Tick(cfg, m, inputs[0]), inputs[1..])
  }

  // Pauses

  /** That a step returns at a retry point shows in the state it leaves, and it has done nothing. */
  lemma PauseLeavesNoTrace(cfg: Config, hs: Handshake, a: Answers)
    requires 0 <= hs.state < DONE
    ensures Rests(hs, Step(cfg, hs, a))
    ensures var o := Step(cfg, hs, a); !o.Failed? ==> (o.Paused? <==> o.hs.state == hs.state)
  {
    hide Step, Hashes, Drains, AllFree, NoCookie, NoHello;
  }

  /** The handshake as it would be without pauses: nothing pending, and the messages to come already there. */
  function Ahead(hs: Handshake, coming: seq<Message>): Handshake {
    hs.(inbox := hs.inbox + coming, pendingKeyOp := false)
  }

  /** The answers of a step that does not pause, as they would be if the key had been ready at once. */
  function AtOnce(cfg: Config, hs: Handshake, a: Answers): (now: Answers)
    ensures now == a.(sign := now.sign)
  {
    a.(sign := KeyOperation(cfg, hs, a))
  }

  function OutcomeAhead(o: Outcome, coming: seq<Message>): Outcome {
    match o
    case Failed => Failed
    case Paused(hs, wait, events) => Paused(Ahead(hs, coming), wait, events)
    case Advanced(hs, wait, events) => Advanced(Ahead(hs, coming), wait, events)
  }

  predicate TakesNoNotice(o: Outcome, ahead: Outcome, coming: seq<Message>) {
    !o.Paused? ==> ahead == OutcomeAhead(o, coming)
  }

  lemma NextAhead(hs: Handshake, coming: seq<Message>)
    ensures hs.inbox != [] ==> (hs.inbox + coming)[0] == hs.inbox[0] && (hs.inbox + coming)[1..] == hs.inbox[1..] + coming
  {
  }

  lemma FrontAhead(hs: Handshake, coming: seq<Message>)
    ensures hs.inbox != [] ==> Ahead(hs, coming).inbox != [] && Ahead(hs, coming).inbox[0] == hs.inbox[0]
  {
  }

  lemma GoesAhead(hs: Handshake, state: State, wait: Wait, events: seq<Event>, coming: seq<Message>)
    requires forall e | e in events :: Silent(e)
    ensures Goes(Ahead(hs, coming), state, wait, events) == OutcomeAhead(Goes(hs, state, wait, events), coming)
  {
    hide Hashes, Drains, Kept;
  }

  lemma SendsAhead(hs: Handshake, kind: Outgoing, bytes: seq<bv8>, state: State, wait: Wait, coming: seq<Message>)
    ensures Sends(Ahead(hs, coming), kind, bytes, state, wait) == OutcomeAhead(Sends(hs, kind, bytes, state, wait), coming)
  {
    hide Hashes, Drains, Kept;
  }

  lemma HashAhead(hs: Handshake, m: Message, coming: seq<Message>)
    ensures HashMessage(Ahead(hs, coming), m) == Ahead(HashMessage(hs, m), coming)
  {
    hide Kept;
  }

  lemma ReadAhead(hs: Handshake, state: State, wait: Wait, events: seq<Event>, coming: seq<Message>)
    requires hs.inbox != []
    ensures Leaves(NextMessage(Ahead(hs, coming)), state, wait, events)
         == OutcomeAhead(Leaves(NextMessage(hs), state, wait, events), coming)
  {
    hide Kept;
    NextAhead(hs, coming);
  }

  lemma CookieAhead(hs: Handshake, bytes: seq<bv8>, state: State, wait: Wait, events: seq<Event>, coming: seq<Message>)
    requires hs.inbox != []
    ensures Leaves(AddMessage(NextMessage(Ahead(hs, coming)).(transcript := []), bytes), state, wait, events)
         == OutcomeAhead(Leaves(AddMessage(NextMessage(hs).(transcript := []), bytes), state, wait, events), coming)
  {
    hide Kept;
    NextAhead(hs, coming);
  }

  lemma HelloAhead(cfg: Config, hs: Handshake, m: Message, a: Answers, coming: seq<Message>)
    requires m.ServerHello?
    ensures Resumed(Ahead(hs, coming), m) == Resumed(hs, m)
    ensures HelloAcceptable(cfg, Ahead(hs, coming), m, AtOnce(cfg, hs, a)) == HelloAcceptable(cfg, hs, m, a)
  {
  }

  lemma NegotiatedAhead(hs: Handshake, m: Message, session: Option<Session>, coming: seq<Message>)
    requires m.ServerHello?
    ensures Negotiated(Ahead(hs, coming), m, session) == Ahead(Negotiated(hs, m, session), coming)
  {
  }

  lemma VersionAhead(cfg: Config, hs: Handshake, version: nat, coming: seq<Message>)
    ensures VersionAcceptable(cfg, Ahead(hs, coming), version) == VersionAcceptable(cfg, hs, version)
    ensures Versioned(Ahead(hs, coming), version) == Ahead(Versioned(hs, version), coming)
  {
  }

  lemma ClassicHelloAhead(cfg: Config, hs: Handshake, m: Message, a: Answers, coming: seq<Message>)
    requires hs.inbox != [] && m == hs.inbox[0] && m.ServerHello?
    ensures ReadClassicHello(cfg, Ahead(hs, coming), m, AtOnce(cfg, hs, a)) == OutcomeAhead(ReadClassicHello(cfg, hs, m, a), coming)
  {
    hide Leaves, HashMessage, NextMessage, HelloAcceptable, Resumed, Negotiated, AtOnce, Advances;
    HelloAhead(cfg, hs, m, a, coming);
    var session := Resumed(hs, m);
    var n := Negotiated(hs, m, session);
    NegotiatedAhead(hs, m, session, coming);
    HashAhead(n, m, coming);
    ReadAhead(HashMessage(n, m), if session.Some? then READ_SESSION_TICKET else READ_SERVER_CERTIFICATE, Ok, [Consumed(m)],
              coming);
  }

  lemma RenewedAhead(hs: Handshake, m: Message, a: Answers, a': Answers, coming: seq<Message>)
    requires m.NewSessionTicket? && a'.ticketId == a.ticketId
    ensures Renewed(Ahead(hs, coming), m, a') == Ahead(Renewed(hs, m, a), coming)
  {
    var ahead := Ahead(hs, coming);
    if m.ticket == [] {
      assert ahead.(extensions := ahead.extensions.(ticketExpected := false))
          == Ahead(hs.(extensions := hs.extensions.(ticketExpected := false)), coming);
    } else if hs.session.Some? {
      var renewed := Some(hs.session.value.(id := a.ticketId));
      assert ahead.(session := renewed) == Ahead(hs.(session := renewed), coming);
    }
  }

  lemma BeforeAhead(cfg: Config, hs: Handshake, a: Answers, coming: seq<Message>)
    ensures BeforeFinished(Ahead(hs, coming), AtOnce(cfg, hs, a)) == OutcomeAhead(BeforeFinished(hs, a), coming)
  {
    hide Hashes, Drains, Kept, Goes, Sends, MessageIf;
    GoesAhead(hs, SEND_CLIENT_FINISHED, Ok, [SentChangeCipherSpec, WriteKeysOn], coming);
    var keys := Goes(hs, SEND_CLIENT_FINISHED, Ok, [SentChangeCipherSpec, WriteKeysOn]).hs;
    SendsAhead(keys, NextProtoOut, a.outNextProto, keys.state, Ok, coming);
    GoesAhead(keys, keys.state, Ok, [], coming);
    var next := SendsIf(keys, hs.extensions.nextProto, NextProtoOut, a.outNextProto).hs;
    SendsAhead(next, ChannelIdOut, a.outChannelId, next.state, Ok, coming);
    GoesAhead(next, next.state, Ok, [], coming);
  }

  lemma StartConnectTakesNoNotice(cfg: Config, hs: Handshake, a: Answers, coming: seq<Message>)
    ensures TakesNoNotice(DoStartConnect(cfg, hs, a),
                          DoStartConnect(cfg, Ahead(hs, coming), AtOnce(cfg, hs, a)), coming)
  {
    hide Hashes, Drains, Rests, AllFree, NoCookie, NoHello, Kept, Leaves, Goes, Sends, AddMessage, HashMessage,
         NextMessage, HelloAcceptable, Resumed, Negotiated, Renewed, BeforeFinished, AtOnce;
    SendsAhead(hs.(session := OfferedSession(hs, a), offered := OfferedSession(hs, a),
                  sessionId := OfferedId(cfg, hs, OfferedSession(hs, a), a), earlyDataOffered := a.offerEarlyData),
               ClientHelloOut, a.out, ENTER_EARLY_DATA, Flush, coming);
  }

  lemma EnterEarlyDataTakesNoNotice(cfg: Config, hs: Handshake, a: Answers, coming: seq<Message>)
    ensures TakesNoNotice(DoEnterEarlyData(cfg, hs, a),
                          DoEnterEarlyData(cfg, Ahead(hs, coming), AtOnce(cfg, hs, a)), coming)
  {
    hide Hashes, Drains, Rests, AllFree, NoCookie, NoHello, Kept, Leaves, Goes, Sends, AddMessage, HashMessage,
         NextMessage, HelloAcceptable, Resumed, Negotiated, Renewed, BeforeFinished, AtOnce;
    GoesAhead(hs, READ_HELLO_VERIFY_REQUEST, Ok, [], coming);
    GoesAhead(hs, READ_SERVER_HELLO, Ok, [], coming);
    GoesAhead(hs.(canEarlyWrite := true), READ_SERVER_HELLO, EarlyReturn, [SentChangeCipherSpec, WriteKeysOn], coming);
  }

  lemma ReadHelloVerifyRequestTakesNoNotice(cfg: Config, hs: Handshake, a: Answers, coming: seq<Message>)
    ensures TakesNoNotice(DoReadHelloVerifyRequest(hs, a),
                          DoReadHelloVerifyRequest(Ahead(hs, coming), AtOnce(cfg, hs, a)), coming)
  {
    hide Hashes, Drains, Rests, AllFree, NoCookie, NoHello, Kept, Leaves, Goes, Sends, AddMessage, HashMessage,
         NextMessage, HelloAcceptable, Resumed, Negotiated, Renewed, BeforeFinished, AtOnce;
    GoesAhead(hs, READ_SERVER_HELLO, Ok, [], coming);
    NextAhead(hs, coming);
    if hs.inbox != [] {
      var events := [Consumed(hs.inbox[0]), TranscriptReset, Sent(ClientHelloOut, a.out)];
      CookieAhead(hs, a.out, READ_SERVER_HELLO, Flush, events, coming);
    }
  }

  lemma ReadServerHelloTakesNoNotice(cfg: Config, hs: Handshake, a: Answers, coming: seq<Message>)
    ensures TakesNoNotice(DoReadServerHello(cfg, hs, a),
                          DoReadServerHello(cfg, Ahead(hs, coming), AtOnce(cfg, hs, a)), coming)
  {
    hide Hashes, Drains, Rests, AllFree, NoCookie, NoHello, Kept, Leaves, Goes, Sends, AddMessage, HashMessage,
         NextMessage, HelloAcceptable, Resumed, Negotiated, Renewed, BeforeFinished, AtOnce;
    hide ReadClassicHello, Versioned, VersionAcceptable, Ahead;
    FrontAhead(hs, coming);
    if hs.inbox != [] && hs.inbox[0].ServerHello? {
      var m := hs.inbox[0];
      VersionAhead(cfg, hs, m.version, coming);
      GoesAhead(Versioned(hs, m.version), TLS13, Ok, [], coming);
      ClassicHelloAhead(cfg, hs, m, a, coming);
    }
  }

  lemma Tls13TakesNoNotice(cfg: Config, hs: Handshake, a: Answers, coming: seq<Message>)
    ensures TakesNoNotice(DoTls13(hs, a), DoTls13(Ahead(hs, coming), AtOnce(cfg, hs, a)), coming)
  {
    hide Hashes, Drains, Rests, AllFree, NoCookie, NoHello, Kept, Leaves, Goes, Sends, AddMessage, HashMessage,
         NextMessage, HelloAcceptable, Resumed, Negotiated, Renewed, BeforeFinished, AtOnce;
    GoesAhead(hs, FINISH_CLIENT_HANDSHAKE, Ok, [], coming);
  }

  lemma ReadServerCertificateTakesNoNotice(cfg: Config, hs: Handshake, a: Answers, coming: seq<Message>)
    ensures TakesNoNotice(DoReadServerCertificate(hs, a),
                          DoReadServerCertificate(Ahead(hs, coming), AtOnce(cfg, hs, a)), coming)
  {
    hide Hashes, Drains, Rests, AllFree, NoCookie, NoHello, Kept, Leaves, Goes, Sends, AddMessage, HashMessage,
         NextMessage, HelloAcceptable, Resumed, Negotiated, Renewed, BeforeFinished, AtOnce;
    GoesAhead(hs, READ_CERTIFICATE_STATUS, Ok, [], coming);
    NextAhead(hs, coming);
    if hs.inbox != [] && hs.inbox[0].Certificate? {
      var m := hs.inbox[0];
      assert Ahead(hs, coming).inbox[0] == m && Ahead(hs, coming).inbox != [];
      HashAhead(hs, m, coming);
      ReadAhead(HashMessage(hs, m).(certs := m.chain), READ_CERTIFICATE_STATUS, Ok, [Consumed(m)], coming);
    }
  }

  lemma ReadCertificateStatusTakesNoNotice(cfg: Config, hs: Handshake, a: Answers, coming: seq<Message>)
    ensures TakesNoNotice(DoReadCertificateStatus(hs, a),
                          DoReadCertificateStatus(Ahead(hs, coming), AtOnce(cfg, hs, a)), coming)
  {
    hide Hashes, Drains, Rests, AllFree, NoCookie, NoHello, Kept, Leaves, Goes, Sends, AddMessage, HashMessage,
         NextMessage, HelloAcceptable, Resumed, Negotiated, Renewed, BeforeFinished, AtOnce;
    GoesAhead(hs, VERIFY_SERVER_CERTIFICATE, Ok, [], coming);
    NextAhead(hs, coming);
    if hs.inbox != [] && hs.inbox[0].CertificateStatus? {
      var m := hs.inbox[0];
      assert Ahead(hs, coming).inbox[0] == m && Ahead(hs, coming).inbox != [];
      HashAhead(hs, m, coming);
      ReadAhead(HashMessage(hs, m), VERIFY_SERVER_CERTIFICATE, Ok, [Consumed(m)], coming);
    }
  }

  lemma VerifyServerCertificateTakesNoNotice(cfg: Config, hs: Handshake, a: Answers, coming: seq<Message>)
    ensures TakesNoNotice(DoVerifyServerCertificate(cfg, hs, a),
                          DoVerifyServerCertificate(cfg, Ahead(hs, coming), AtOnce(cfg, hs, a)), coming)
  {
    hide Hashes, Drains, Rests, AllFree, NoCookie, NoHello, Kept, Leaves, Goes, Sends, AddMessage, HashMessage,
         NextMessage, HelloAcceptable, Resumed, Negotiated, Renewed, BeforeFinished, AtOnce;
    GoesAhead(hs, READ_SERVER_KEY_EXCHANGE, Ok, [], coming);
    GoesAhead(hs, READ_SERVER_KEY_EXCHANGE, Ok, [CertificateVerified(hs.certs)], coming);
  }

  lemma ReadServerKeyExchangeTakesNoNotice(cfg: Config, hs: Handshake, a: Answers, coming: seq<Message>)
    requires hs.cipher.Some?
    ensures TakesNoNotice(DoReadServerKeyExchange(hs, a),
                          DoReadServerKeyExchange(Ahead(hs, coming), AtOnce(cfg, hs, a)), coming)
  {
    hide Hashes, Drains, Rests, AllFree, NoCookie, NoHello, Kept, Leaves, Goes, Sends, AddMessage, HashMessage,
         NextMessage, HelloAcceptable, Resumed, Negotiated, Renewed, BeforeFinished, AtOnce;
    GoesAhead(hs, READ_CERTIFICATE_REQUEST, Ok, [], coming);
    NextAhead(hs, coming);
    if hs.inbox != [] && hs.inbox[0].ServerKeyExchange? {
      var m := hs.inbox[0];
      assert Ahead(hs, coming).inbox[0] == m && Ahead(hs, coming).inbox != [];
      HashAhead(hs, m, coming);
      ReadAhead(HashMessage(hs, m), READ_CERTIFICATE_REQUEST, Ok,
                (if hs.CertificateAuth() then [SignatureVerified] else []) + [Consumed(m)], coming);
    }
  }

  lemma ReadCertificateRequestTakesNoNotice(cfg: Config, hs: Handshake, a: Answers, coming: seq<Message>)
    ensures TakesNoNotice(DoReadCertificateRequest(hs, a),
                          DoReadCertificateRequest(Ahead(hs, coming), AtOnce(cfg, hs, a)), coming)
  {
    hide Hashes, Drains, Rests, AllFree, NoCookie, NoHello, Kept, Leaves, Goes, Sends, AddMessage, HashMessage,
         NextMessage, HelloAcceptable, Resumed, Negotiated, Renewed, BeforeFinished, AtOnce;
    GoesAhead(hs, READ_SERVER_HELLO_DONE, Ok, [], coming);
    NextAhead(hs, coming);
    if hs.inbox != [] && hs.inbox[0].CertificateRequest? {
      var m := hs.inbox[0];
      assert Ahead(hs, coming).inbox[0] == m && Ahead(hs, coming).inbox != [];
      HashAhead(hs, m, coming);
      ReadAhead(HashMessage(hs, m).(certRequest := true), READ_SERVER_HELLO_DONE, Ok, [Consumed(m)], coming);
    }
  }

  lemma ReadServerHelloDoneTakesNoNotice(cfg: Config, hs: Handshake, a: Answers, coming: seq<Message>)
    ensures TakesNoNotice(DoReadServerHelloDone(hs, a),
                          DoReadServerHelloDone(Ahead(hs, coming), AtOnce(cfg, hs, a)), coming)
  {
    hide Hashes, Drains, Rests, AllFree, NoCookie, NoHello, Kept, Leaves, Goes, Sends, AddMessage, HashMessage,
         NextMessage, HelloAcceptable, Resumed, Negotiated, Renewed, BeforeFinished, AtOnce;
    hide Ahead;
    FrontAhead(hs, coming);
    if hs.inbox != [] && hs.inbox[0].ServerHelloDone? {
      var m := hs.inbox[0];
      HashAhead(hs, m, coming);
      ReadAhead(HashMessage(hs, m), SEND_CLIENT_CERTIFICATE, Ok, [Consumed(m)], coming);
    }
  }

  lemma SendClientCertificateTakesNoNotice(cfg: Config, hs: Handshake, a: Answers, coming: seq<Message>)
    ensures TakesNoNotice(DoSendClientCertificate(hs, a),
                          DoSendClientCertificate(Ahead(hs, coming), AtOnce(cfg, hs, a)), coming)
  {
    hide Hashes, Drains, Rests, AllFree, NoCookie, NoHello, Kept, Leaves, Goes, Sends, AddMessage, HashMessage,
         NextMessage, HelloAcceptable, Resumed, Negotiated, Renewed, BeforeFinished, AtOnce;
    GoesAhead(hs, SEND_CLIENT_KEY_EXCHANGE, Ok, [], coming);
    GoesAhead(hs.(hasCertificate := false), SEND_CLIENT_KEY_EXCHANGE, Ok, [], coming);
    SendsAhead(hs.(hasCertificate := a.hasCertificate), CertificateOut, a.out, SEND_CLIENT_KEY_EXCHANGE, Ok, coming);
  }

  lemma SendClientKeyExchangeTakesNoNotice(cfg: Config, hs: Handshake, a: Answers, coming: seq<Message>)
    ensures TakesNoNotice(DoSendClientKeyExchange(hs, a),
                          DoSendClientKeyExchange(Ahead(hs, coming), AtOnce(cfg, hs, a)), coming)
  {
    hide Hashes, Drains, Rests, AllFree, NoCookie, NoHello, Kept, Leaves, Goes, Sends, AddMessage, HashMessage,
         NextMessage, HelloAcceptable, Resumed, Negotiated, Renewed, BeforeFinished, AtOnce;
    SendsAhead(hs, ClientKeyExchangeOut, a.out, SEND_CLIENT_KEY_EXCHANGE, Ok, coming);
    var sent := Sends(hs, ClientKeyExchangeOut, a.out, SEND_CLIENT_KEY_EXCHANGE, Ok).hs;
    GoesAhead(sent.(newMaster := a.master), SEND_CLIENT_CERTIFICATE_VERIFY, Ok, [MasterDerived(a.master)], coming);
  }

  lemma SendClientCertificateVerifyTakesNoNotice(cfg: Config, hs: Handshake, a: Answers, coming: seq<Message>)
    ensures TakesNoNotice(DoSendClientCertificateVerify(cfg, hs, a),
                          DoSendClientCertificateVerify(cfg, Ahead(hs, coming), AtOnce(cfg, hs, a)), coming)
  {
    hide Hashes, Drains, Rests, AllFree, NoCookie, NoHello, Kept, Leaves, Goes, Sends, AddMessage, HashMessage,
         NextMessage, HelloAcceptable, Resumed, Negotiated, Renewed, BeforeFinished;
    var signed := KeyOperationDone(cfg, hs, KeyOperation(cfg, hs, a));
    GoesAhead(hs, SEND_CLIENT_FINISHED, Ok, [], coming);
    SendsAhead(signed, CertificateVerifyOut, a.out, SEND_CLIENT_FINISHED, Ok, coming);
  }

  lemma SendClientFinishedTakesNoNotice(cfg: Config, hs: Handshake, a: Answers, coming: seq<Message>)
    ensures TakesNoNotice(DoSendClientFinished(cfg, hs, a),
                          DoSendClientFinished(cfg, Ahead(hs, coming), AtOnce(cfg, hs, a)), coming)
  {
    hide Hashes, Drains, Rests, AllFree, NoCookie, NoHello, Kept, Leaves, Goes, Sends, AddMessage, HashMessage,
         NextMessage, HelloAcceptable, Resumed, Negotiated, Renewed, BeforeFinished, AtOnce;
    var before := BeforeFinished(hs, a).hs;
    BeforeAhead(cfg, hs, a, coming);
    var finished := cfg.finishedMessage(cfg.finishedMac(hs.Master(), before.transcript, false));
    SendsAhead(before, FinishedOut, finished, FINISH_FLIGHT, Flush, coming);
  }

  lemma FinishFlightTakesNoNotice(cfg: Config, hs: Handshake, a: Answers, coming: seq<Message>)
    ensures TakesNoNotice(DoFinishFlight(cfg, hs, a),
                          DoFinishFlight(cfg, Ahead(hs, coming), AtOnce(cfg, hs, a)), coming)
  {
    hide Hashes, Drains, Rests, AllFree, NoCookie, NoHello, Kept, Leaves, Goes, Sends, AddMessage, HashMessage,
         NextMessage, HelloAcceptable, Resumed, Negotiated, Renewed, BeforeFinished, AtOnce;
    GoesAhead(hs, FINISH_CLIENT_HANDSHAKE, Ok, [], coming);
    GoesAhead(hs, READ_SESSION_TICKET, Ok, [], coming);
    GoesAhead(hs.(inFalseStart := true, canEarlyWrite := true), READ_SESSION_TICKET, EarlyReturn, [], coming);
  }

  lemma ReadSessionTicketTakesNoNotice(cfg: Config, hs: Handshake, a: Answers, coming: seq<Message>)
    ensures TakesNoNotice(DoReadSessionTicket(hs, a),
                          DoReadSessionTicket(Ahead(hs, coming), AtOnce(cfg, hs, a)), coming)
  {
    hide Hashes, Drains, Rests, AllFree, NoCookie, NoHello, Kept, Leaves, Goes, Sends, AddMessage, HashMessage,
         NextMessage, HelloAcceptable, Resumed, Negotiated, Renewed, BeforeFinished, AtOnce;
    GoesAhead(hs, PROCESS_CHANGE_CIPHER_SPEC, ReadChangeCipherSpec, [], coming);
    NextAhead(hs, coming);
    if hs.inbox != [] && hs.inbox[0].NewSessionTicket? {
      var m := hs.inbox[0];
      HashAhead(hs, m, coming);
      RenewedAhead(HashMessage(hs, m), m, a, AtOnce(cfg, hs, a), coming);
      ReadAhead(Renewed(HashMessage(hs, m), m, a), PROCESS_CHANGE_CIPHER_SPEC, ReadChangeCipherSpec, [Consumed(m)], coming);
    }
  }

  lemma ProcessChangeCipherSpecTakesNoNotice(cfg: Config, hs: Handshake, a: Answers, coming: seq<Message>)
    ensures TakesNoNotice(DoProcessChangeCipherSpec(hs, a),
                          DoProcessChangeCipherSpec(Ahead(hs, coming), AtOnce(cfg, hs, a)), coming)
  {
    hide Hashes, Drains, Rests, AllFree, NoCookie, NoHello, Kept, Leaves, Goes, Sends, AddMessage, HashMessage,
         NextMessage, HelloAcceptable, Resumed, Negotiated, Renewed, BeforeFinished, AtOnce;
    GoesAhead(hs, READ_SERVER_FINISHED, Ok, [ReadKeysOn], coming);
  }

  lemma ReadServerFinishedTakesNoNotice(cfg: Config, hs: Handshake, a: Answers, coming: seq<Message>)
    ensures TakesNoNotice(DoReadServerFinished(cfg, hs, a),
                          DoReadServerFinished(cfg, Ahead(hs, coming), AtOnce(cfg, hs, a)), coming)
  {
    hide Hashes, Drains, Rests, AllFree, NoCookie, NoHello, Kept, Leaves, Goes, Sends, AddMessage, HashMessage,
         NextMessage, HelloAcceptable, Resumed, Negotiated, Renewed, BeforeFinished, AtOnce;
    assert Ahead(hs, coming).Master() == hs.Master();
    hide Handshake.Master;
    NextAhead(hs, coming);
    if hs.inbox != [] && hs.inbox[0].Finished? {
      var m := hs.inbox[0];
      assert Ahead(hs, coming).inbox[0] == m && Ahead(hs, coming).inbox != [];
      HashAhead(hs, m, coming);
      ReadAhead(HashMessage(hs, m), if hs.session.Some? then SEND_CLIENT_FINISHED else FINISH_CLIENT_HANDSHAKE, Ok,
                [ServerFinishedMatched(hs.Master(), m.verifyData)] + [Consumed(m)], coming);
    }
  }

  lemma FinishClientHandshakeTakesNoNotice(cfg: Config, hs: Handshake, a: Answers, coming: seq<Message>)
    ensures TakesNoNotice(DoFinishClientHandshake(hs, a),
                          DoFinishClientHandshake(Ahead(hs, coming), AtOnce(cfg, hs, a)), coming)
  {
    hide Hashes, Drains, Rests, AllFree, NoCookie, NoHello, Kept, Leaves, Goes, Sends, AddMessage, HashMessage,
         NextMessage, HelloAcceptable, Resumed, Negotiated, Renewed, BeforeFinished, AtOnce;
    var certs := if hs.session.Some? then hs.session.value.certs else hs.certs;
    GoesAhead(hs.(connection := hs.connection.(establishedCerts := Some(certs), initialComplete := true)), DONE, Ok,
              [Completed], coming);
  }

  /** A step that does not pause takes no notice of earlier pauses, nor of messages that come later. */
  lemma StepTakesNoNotice(cfg: Config, hs: Handshake, a: Answers, coming: seq<Message>)
    ensures TakesNoNotice(Step(cfg, hs, a), Step(cfg, Ahead(hs, coming), AtOnce(cfg, hs, a)), coming)
  {
    hide DoStartConnect, DoEnterEarlyData, DoReadHelloVerifyRequest, DoReadServerHello, DoTls13,
         DoReadServerCertificate, DoReadCertificateStatus, DoVerifyServerCertificate, DoReadServerKeyExchange,
         DoReadCertificateRequest, DoReadServerHelloDone, DoSendClientCertificate, DoSendClientKeyExchange,
         DoSendClientCertificateVerify, DoSendClientFinished, DoFinishFlight, DoReadSessionTicket,
         DoProcessChangeCipherSpec, DoReadServerFinished, DoFinishClientHandshake;
    assert Ahead(hs, coming).state == hs.state && Ahead(hs, coming).cipher == hs.cipher;
    hide AtOnce, Ahead, TakesNoNotice, Advances;
    if hs.state == START_CONNECT {
      StartConnectTakesNoNotice(cfg, hs, a, coming);
    } else if hs.state == ENTER_EARLY_DATA {
      EnterEarlyDataTakesNoNotice(cfg, hs, a, coming);
    } else if hs.state == READ_HELLO_VERIFY_REQUEST {
      ReadHelloVerifyRequestTakesNoNotice(cfg, hs, a, coming);
    } else if hs.state == READ_SERVER_HELLO {
      ReadServerHelloTakesNoNotice(cfg, hs, a, coming);
    } else if hs.state == TLS13 {
      Tls13TakesNoNotice(cfg, hs, a, coming);
    } else if hs.state == READ_SERVER_CERTIFICATE {
      ReadServerCertificateTakesNoNotice(cfg, hs, a, coming);
    } else if hs.state == READ_CERTIFICATE_STATUS {
      ReadCertificateStatusTakesNoNotice(cfg, hs, a, coming);
    } else if hs.state == VERIFY_SERVER_CERTIFICATE {
      VerifyServerCertificateTakesNoNotice(cfg, hs, a, coming);
    } else if hs.state == READ_SERVER_KEY_EXCHANGE && hs.cipher.Some? {
      ReadServerKeyExchangeTakesNoNotice(cfg, hs, a, coming);
    } else if hs.state == READ_CERTIFICATE_REQUEST {
      ReadCertificateRequestTakesNoNotice(cfg, hs, a, coming);
    } else if hs.state == READ_SERVER_HELLO_DONE {
      ReadServerHelloDoneTakesNoNotice(cfg, hs, a, coming);
    } else if hs.state == SEND_CLIENT_CERTIFICATE {
      SendClientCertificateTakesNoNotice(cfg, hs, a, coming);
    } else if hs.state == SEND_CLIENT_KEY_EXCHANGE {
      SendClientKeyExchangeTakesNoNotice(cfg, hs, a, coming);
    } else if hs.state == SEND_CLIENT_CERTIFICATE_VERIFY {
      SendClientCertificateVerifyTakesNoNotice(cfg, hs, a, coming);
    } else if hs.state == SEND_CLIENT_FINISHED {
      SendClientFinishedTakesNoNotice(cfg, hs, a, coming);
    } else if hs.state == FINISH_FLIGHT {
      FinishFlightTakesNoNotice(cfg, hs, a, coming);
    } else if hs.state == READ_SESSION_TICKET {
      ReadSessionTicketTakesNoNotice(cfg, hs, a, coming);
    } else if hs.state == PROCESS_CHANGE_CIPHER_SPEC {
      ProcessChangeCipherSpecTakesNoNotice(cfg, hs, a, coming);
    } else if hs.state == READ_SERVER_FINISHED {
      ReadServerFinishedTakesNoNotice(cfg, hs, a, coming);
    } else if hs.state == FINISH_CLIENT_HANDSHAKE {
      FinishClientHandshakeTakesNoNotice(cfg, hs, a, coming);
    }
  }

  /** The answers that were not met with a request to come back later. */
  function Productive(cfg: Config, m: Machine, inputs: seq<Input>): seq<Answers>
    decreases |inputs|
  {
    if inputs == [] then []
    else
      var a, rest := inputs[0].answers, Productive(cfg, Tick(cfg, m, inputs[0]), inputs[1..]);
      if m.wait.Ok? && m.hs.state != DONE && !Step(cfg, m.hs, a).Paused? then [AtOnce(cfg, m.hs, a)] + rest else rest
  }

  /** The same handshake when nothing ever has to wait. */
  function Straight(cfg: Config, m: Machine, answers: seq<Answers>): Machine
    decreases |answers|
  {
    if answers == [] then m
    else Straight(cfg, Settled(Apply(m, Step(cfg, m.hs, answers[0]))), answers[1..])
  }

  /** The machine once whatever it waits for has happened. */
  function Settled(m: Machine): Machine {
    if m.wait.Error? then m else Resolved(m)
  }

  /** The machine with every wait over and with messages that are still to come. */
  function Unpaused(m: Machine, coming: seq<Message>): Machine {
    Settled(m.(hs := Ahead(m.hs, coming)))
  }

  lemma {:induction false} NothingAfterError(cfg: Config, m: Machine, inputs: seq<Input>)
    requires m.wait.Error?
    ensures Run(cfg, m, inputs) == m && Productive(cfg, m, inputs) == [] && Arrivals(cfg, m, inputs) == []
    decreases |inputs|
  {
    if inputs != [] {
      NothingAfterError(cfg, m, inputs[1..]);
    }
  }

  lemma StepUnpaused(cfg: Config, m: Machine, a: Answers, coming: seq<Message>)
    requires m.wait.Ok? && 0 <= m.hs.state < DONE
    ensures var o := Step(cfg, m.hs, a);
            if o.Paused? then Unpaused(Apply(m, o), coming) == Unpaused(m, coming)
            else Unpaused(Apply(m, o), coming)
                 == Settled(Apply(Unpaused(m, coming), Step(cfg, Unpaused(m, coming).hs, AtOnce(cfg, m.hs, a))))
  {
    hide Step, AtOnce, Advances;
    var o := Step(cfg, m.hs, a);
    if o.Paused? {
      PauseLeavesNoTrace(cfg, m.hs, a);
      assert m.log + [] == m.log;
    } else {
      hide Ahead, Rests;
      StepTakesNoNotice(cfg, m.hs, a, coming);
    }
  }

  /** One turn, seen by the handshake that never waits: a productive step is taken, anything else is nothing. */
  lemma TickUnpaused(cfg: Config, m: Machine, input: Input, coming: seq<Message>)
    requires !m.wait.Error? && 0 <= m.hs.state <= DONE
    ensures var m' := Tick(cfg, m, input);
            if m.wait.Ok? && m.hs.state != DONE && !Step(cfg, m.hs, input.answers).Paused? then
              Unpaused(m', coming)
              == Settled(Apply(Unpaused(m, coming), Step(cfg, Unpaused(m, coming).hs, AtOnce(cfg, m.hs, input.answers))))
            else Unpaused(m', coming) == Unpaused(m, ArrivalsNow(m, input) + coming)
  {
    hide Step, AtOnce, Apply, Rests, Advances;
    assert m.hs.inbox + input.arrived + coming == m.hs.inbox + (input.arrived + coming);
    assert [] + coming == coming;
    if m.wait.Ok? && m.hs.state != DONE {
      hide Unpaused;
      StepUnpaused(cfg, m, input.answers, coming);
    }
  }

  /**
   Main result: pauses are transparent.  However often a run has to wait, and whenever the
   server's messages arrive, it ends with the transcript, the messages, the keys and the state
   of the handshake that has all of the server's messages from the start, gets the same
   productive answers and never waits.
   */
  lemma {:induction false} PausesAreTransparent(cfg: Config, m: Machine, inputs: seq<Input>)
    requires 0 <= m.hs.state <= DONE
    ensures Unpaused(Run(cfg, m, inputs), [])
         == Straight(cfg, Unpaused(m, Arrivals(cfg, m, inputs)), Productive(cfg, m, inputs))
    decreases |inputs|
  {
    hide Step, Tick, Unpaused, AtOnce, ArrivalsNow;
    if m.wait.Error? {
      NothingAfterError(cfg, m, inputs);
    } else if inputs != [] {
      var m', input, a := Tick(cfg, m, inputs[0]), inputs[0], inputs[0].answers;
      var coming := Arrivals(cfg, m', inputs[1..]);
      TickConserves(cfg, m, input);
      PausesAreTransparent(cfg, m', inputs[1..]);
      TickUnpaused(cfg, m, input, coming);
      if m.wait.Ok? && m.hs.state != DONE && !Step(cfg, m.hs, a).Paused? {
        var rest := Productive(cfg, m', inputs[1..]);
        assert ArrivalsNow(m, input) + coming == coming by {
          NothingArrives(m, input);
        }
        assert ([AtOnce(cfg, m.hs, a)] + rest)[1..] == rest;
      }
    }
  }

  lemma NothingArrives(m: Machine, input: Input)
    requires m.wait.Ok?
    ensures ArrivalsNow(m, input) == []
  {
  }

  /** Two runs with the same messages and the same productive answers say the same, whatever their pauses. */
  lemma SameAnswersSameRun(cfg: Config, m: Machine, inputs: seq<Input>, others: seq<Input>)
    requires 0 <= m.hs.state <= DONE
    requires Productive(cfg, m, inputs) == Productive(cfg, m, others)
    requires Arrivals(cfg, m, inputs) == Arrivals(cfg, m, others)
    ensures Settled(Run(cfg, m, inputs)).log == Settled(Run(cfg, m, others)).log
  {
    PausesAreTransparent(cfg, m, inputs);
    PausesAreTransparent(cfg, m, others);
  }

  lemma TickLowersRank(cfg: Config, m: Machine, input: Input)
    requires 0 <= m.hs.state <= DONE
    ensures var m' := Tick(cfg, m, input);
            && RankOf(m'.hs) <= RankOf(m.hs)
            && (m.wait.Ok? && m.hs.state != DONE && Step(cfg, m.hs, input.answers).Advanced? ==> RankOf(m'.hs) < RankOf(m.hs))
            && (m.wait.Ok? && m.hs.state != DONE && Step(cfg, m.hs, input.answers).Failed? ==> m'.wait.Error?)
  {
    hide Step, Hashes, Drains, AllFree, NoCookie, NoHello;
    if m.wait.Ok? && m.hs.state != DONE {
      var o := Step(cfg, m.hs, input.answers);
      assert o.Paused? ==> RankOf(o.hs) == RankOf(m.hs);
      assert o.Advanced? ==> RankOf(o.hs) < RankOf(m.hs);
      hide RankOf, Rank;
    }
  }

  /** Main result: every productive step brings the handshake closer to its end, so there are at most twenty. */
  lemma {:induction false} ProductiveStepsAreBounded(cfg: Config, m: Machine, inputs: seq<Input>)
    requires 0 <= m.hs.state <= DONE
    ensures |Productive(cfg, m, inputs)| <= RankOf(m.hs) <= 20
    decreases |inputs|
  {
    hide Step, Tick, AtOnce, Taken;
    if inputs != [] {
      var m' := Tick(cfg, m, inputs[0]);
      TickConserves(cfg, m, inputs[0]);
      TickLowersRank(cfg, m, inputs[0]);
      ProductiveStepsAreBounded(cfg, m', inputs[1..]);
      if m'.wait.Error? {
        NothingAfterError(cfg, m', inputs[1..]);
      }
      if m.hs.state != DONE {
        RankIsPositive(m.hs);
      }
    }
  }

  lemma RankIsPositive(hs: Handshake)
    requires 0 <= hs.state < DONE
    ensures RankOf(hs) > 0
  {
  }

  /** Whether a session is resumed is settled with the ServerHello, and with it the order of the states. */
  lemma ResumptionIsSettled(cfg: Config, hs: Handshake, a: Answers)
    requires READ_SERVER_CERTIFICATE <= hs.state < DONE
    ensures var o := Step(cfg, hs, a);
            o.Advanced? ==> o.hs.session.Some? == hs.session.Some? && o.hs.state >= READ_SERVER_CERTIFICATE
  {
    hide Step, Hashes, Drains, AllFree, NoCookie, NoHello;
  }
}
