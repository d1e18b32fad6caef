/**
 The order of the messages of a handshake: what a completed run has said and heard is one of
 the message flows of section 7.3 of RFC 5246, with the optional messages exactly where the
 negotiation calls for them.
 */
module HandshakeOrder {
  import opened Wrappers
  import opened ClientHandshake
  import opened HandshakeRuns

  datatype Incoming =
    | HelloVerifyRequestIn
    | ServerHelloIn
    | CertificateIn
    | CertificateStatusIn
    | ServerKeyExchangeIn
    | CertificateRequestIn
    | ServerHelloDoneIn
    | NewSessionTicketIn
    | FinishedIn
    | OtherIn

  datatype Label = Out(sent: Outgoing) | OutChangeCipherSpec | In(received: Incoming) | InChangeCipherSpec

  function Kind(m: Message): Incoming {
    match m
    case HelloVerifyRequest(_) => HelloVerifyRequestIn
    case ServerHello(_, _, _, _, _, _) => ServerHelloIn
    case Certificate(_, _) => CertificateIn
    case CertificateStatus(_) => CertificateStatusIn
    case ServerKeyExchange(_) => ServerKeyExchangeIn
    case CertificateRequest(_) => CertificateRequestIn
    case ServerHelloDone(_, _) => ServerHelloDoneIn
    case NewSessionTicket(_, _) => NewSessionTicketIn
    case Finished(_, _) => FinishedIn
    case OtherMessage(_) => OtherIn
  }

  function LabelOf(e: Event): seq<Label> {
    match e
    case Sent(kind, _) => [Out(kind)]
    case SentChangeCipherSpec => [OutChangeCipherSpec]
    case Consumed(m) => [In(Kind(m))]
    case ChangeCipherSpecAccepted => [InChangeCipherSpec]
    case _ => []
  }

  /** The messages of a log, without their contents. */
  function Labels(log: seq<Event>): seq<Label>
    decreases |log|
  {
    if log == [] then [] else Labels(log[..|log| - 1]) + LabelOf(log[|log| - 1])
  }

  lemma LabelsAppend(log: seq<Event>, e: Event)
    ensures Labels(log + [e]) == Labels(log) + LabelOf(e)
  {
    assert (log + [e])[..|log|] == log;
  }

  lemma {:induction false} LabelsConcat(a: seq<Event>, b: seq<Event>)
    ensures Labels(a + b) == Labels(a) + Labels(b)
    decreases |b|
  {
    hide LabelOf;
    if b == [] {
      assert a + b == a;
    } else {
      var front, e := b[..|b| - 1], b[|b| - 1];
      LabelsConcat(a, front);
      LabelsAppend(a + front, e);
      assert a + front + [e] == a + b;
      assert Labels(a) + Labels(front) + LabelOf(e) == Labels(a) + (Labels(front) + LabelOf(e));
    }
  }

  // The flows of the standard

  /** What each state that has a choice contributes. */
  datatype Choices = Choices(
    early: seq<Label>,
    cookie: seq<Label>,
    certificate: seq<Label>,
    status: seq<Label>,
    keyExchange: seq<Label>,
    request: seq<Label>,
    clientCertificate: seq<Label>,
    verify: seq<Label>,
    closing: seq<Label>,
    ticket: seq<Label>)

  const NO_CHOICES: Choices := Choices([], [], [], [], [], [], [], [], [], [])

  /** The messages of a full handshake. */
  function FullFlow(c: Choices): seq<Label> {
    [Out(ClientHelloOut)] + c.cookie
    + [In(ServerHelloIn)] + c.certificate + c.status + c.keyExchange + c.request + [In(ServerHelloDoneIn)]
    + c.clientCertificate + [Out(ClientKeyExchangeOut)] + c.verify + c.closing
    + c.ticket + [InChangeCipherSpec] + [In(FinishedIn)]
  }

  /** The messages of a resumed handshake: the server finishes first. */
  function ResumedFlow(c: Choices): seq<Label> {
    [Out(ClientHelloOut)] + c.cookie
    + [In(ServerHelloIn)] + c.ticket + [InChangeCipherSpec] + [In(FinishedIn)]
    + c.closing
  }

  /** The messages a state may contribute. */
  function Piece(state: State, c: Choices): seq<Label> {
    if state == START_CONNECT then [Out(ClientHelloOut)]
    else if state == ENTER_EARLY_DATA then c.early
    else if state == READ_HELLO_VERIFY_REQUEST then c.cookie
    else if state == READ_SERVER_HELLO then [In(ServerHelloIn)]
    else if state == READ_SERVER_CERTIFICATE then c.certificate
    else if state == READ_CERTIFICATE_STATUS then c.status
    else if state == READ_SERVER_KEY_EXCHANGE then c.keyExchange
    else if state == READ_CERTIFICATE_REQUEST then c.request
    else if state == READ_SERVER_HELLO_DONE then [In(ServerHelloDoneIn)]
    else if state == SEND_CLIENT_CERTIFICATE then c.clientCertificate
    else if state == SEND_CLIENT_KEY_EXCHANGE then [Out(ClientKeyExchangeOut)]
    else if state == SEND_CLIENT_CERTIFICATE_VERIFY then c.verify
    else if state == SEND_CLIENT_FINISHED then c.closing
    else if state == READ_SESSION_TICKET then c.ticket
    else if state == PROCESS_CHANGE_CIPHER_SPEC then [InChangeCipherSpec]
    else if state == READ_SERVER_FINISHED then [In(FinishedIn)]
    else []
  }

  function Note(state: State, c: Choices, labels: seq<Label>): Choices {
    if state == ENTER_EARLY_DATA then c.(early := labels)
    else if state == READ_HELLO_VERIFY_REQUEST then c.(cookie := labels)
    else if state == READ_SERVER_CERTIFICATE then c.(certificate := labels)
    else if state == READ_CERTIFICATE_STATUS then c.(status := labels)
    else if state == READ_SERVER_KEY_EXCHANGE then c.(keyExchange := labels)
    else if state == READ_CERTIFICATE_REQUEST then c.(request := labels)
    else if state == SEND_CLIENT_CERTIFICATE then c.(clientCertificate := labels)
    else if state == SEND_CLIENT_CERTIFICATE_VERIFY then c.(verify := labels)
    else if state == SEND_CLIENT_FINISHED then c.(closing := labels)
    else if state == READ_SESSION_TICKET then c.(ticket := labels)
    else c
  }

  /** The state visited before a state, in the order of a full or of a resumed handshake. */
  function Prior(state: State, resumed: bool): State
    requires START_CONNECT < state <= DONE
  {
    if resumed && state == READ_SESSION_TICKET then TLS13
    else if resumed && state == SEND_CLIENT_FINISHED then READ_SERVER_FINISHED
    else if resumed && state == FINISH_CLIENT_HANDSHAKE then FINISH_FLIGHT
    else state - 1
  }

  /** The messages of all the states before this one. */
  function Flow(state: State, resumed: bool, c: Choices): seq<Label>
    requires START_CONNECT <= state <= DONE
    decreases 20 - Rank(state, resumed)
  {
    if state == START_CONNECT then []
    else Flow(Prior(state, resumed), resumed, c) + Piece(Prior(state, resumed), c)
  }

  /** What a state contributes does not change what came before it. */
  lemma {:induction false} NoteIsLater(state: State, resumed: bool, c: Choices, at: State, labels: seq<Label>)
    requires START_CONNECT <= state <= DONE && Rank(at, resumed) <= Rank(state, resumed)
    ensures Flow(state, resumed, Note(at, c, labels)) == Flow(state, resumed, c)
    decreases 20 - Rank(state, resumed)
  {
    if state != START_CONNECT {
      hide Note;
      var p := Prior(state, resumed);
      NoteIsLater(p, resumed, c, at, labels);
      NoteElsewhere(p, c, at, labels);
    }
  }

  /** The state with a choice is the one whose choice is noted. */
  predicate Chooses(state: State) {
    || state == ENTER_EARLY_DATA || state == READ_HELLO_VERIFY_REQUEST
    || READ_SERVER_CERTIFICATE <= state <= READ_CERTIFICATE_STATUS
    || READ_SERVER_KEY_EXCHANGE <= state <= READ_CERTIFICATE_REQUEST
    || state == SEND_CLIENT_CERTIFICATE
    || SEND_CLIENT_CERTIFICATE_VERIFY <= state <= SEND_CLIENT_FINISHED || state == READ_SESSION_TICKET
  }

  /** Only the choice of one state is noted. */
  predicate NotedIn(state: State, c: Choices, labels: seq<Label>, n: Choices) {
    && (n.early == if state == ENTER_EARLY_DATA then labels else c.early)
    && (n.cookie == if state == READ_HELLO_VERIFY_REQUEST then labels else c.cookie)
    && (n.certificate == if state == READ_SERVER_CERTIFICATE then labels else c.certificate)
    && (n.status == if state == READ_CERTIFICATE_STATUS then labels else c.status)
    && (n.keyExchange == if state == READ_SERVER_KEY_EXCHANGE then labels else c.keyExchange)
    && (n.request == if state == READ_CERTIFICATE_REQUEST then labels else c.request)
    && (n.clientCertificate == if state == SEND_CLIENT_CERTIFICATE then labels else c.clientCertificate)
    && (n.verify == if state == SEND_CLIENT_CERTIFICATE_VERIFY then labels else c.verify)
    && (n.closing == if state == SEND_CLIENT_FINISHED then labels else c.closing)
    && (n.ticket == if state == READ_SESSION_TICKET then labels else c.ticket)
    && (Chooses(state) ==> Piece(state, n) == labels)
  }

  lemma NotedFields(state: State, c: Choices, labels: seq<Label>)
    ensures NotedIn(state, c, labels, Note(state, c, labels))
  {
  }

  lemma NoteElsewhere(state: State, c: Choices, at: State, labels: seq<Label>)
    requires state != at
    ensures Piece(state, Note(at, c, labels)) == Piece(state, c)
  {
  }

  /** Up to the ServerHello both orders are the same. */
  lemma {:induction false} HelloIsCommon(state: State, c: Choices)
    requires START_CONNECT <= state <= READ_SERVER_HELLO
    ensures Flow(state, true, c) == Flow(state, false, c)
    decreases state
  {
    if state > START_CONNECT {
      HelloIsCommon(state - 1, c);
    }
  }

  lemma FlowBack(state: State, resumed: bool, c: Choices)
    requires START_CONNECT < state <= DONE
    ensures Flow(state, resumed, c) == Flow(Prior(state, resumed), resumed, c) + Piece(Prior(state, resumed), c)
    ensures Flow(START_CONNECT, resumed, c) == []
  {
  }

  lemma HelloFlow(resumed: bool, c: Choices)
    requires c.early == []
    ensures Flow(TLS13, resumed, c) == [Out(ClientHelloOut)] + c.cookie + [In(ServerHelloIn)]
  {
    hide Flow;
    FlowBack(TLS13, resumed, c);
    FlowBack(READ_SERVER_HELLO, resumed, c);
    FlowBack(READ_HELLO_VERIFY_REQUEST, resumed, c);
    FlowBack(ENTER_EARLY_DATA, resumed, c);
  }

  lemma ServerFlow(c: Choices)
    ensures Flow(SEND_CLIENT_CERTIFICATE, false, c)
         == Flow(TLS13, false, c) + c.certificate + c.status + c.keyExchange + c.request + [In(ServerHelloDoneIn)]
  {
    hide Flow;
    FlowBack(SEND_CLIENT_CERTIFICATE, false, c);
    FlowBack(READ_SERVER_HELLO_DONE, false, c);
    FlowBack(READ_CERTIFICATE_REQUEST, false, c);
    FlowBack(READ_SERVER_KEY_EXCHANGE, false, c);
    FlowBack(VERIFY_SERVER_CERTIFICATE, false, c);
    FlowBack(READ_CERTIFICATE_STATUS, false, c);
    FlowBack(READ_SERVER_CERTIFICATE, false, c);
  }

  lemma ClientFlow(c: Choices)
    ensures Flow(READ_SESSION_TICKET, false, c)
         == Flow(SEND_CLIENT_CERTIFICATE, false, c) + c.clientCertificate + [Out(ClientKeyExchangeOut)] + c.verify + c.closing
  {
    hide Flow;
    FlowBack(READ_SESSION_TICKET, false, c);
    FlowBack(FINISH_FLIGHT, false, c);
    FlowBack(SEND_CLIENT_FINISHED, false, c);
    FlowBack(SEND_CLIENT_CERTIFICATE_VERIFY, false, c);
    FlowBack(SEND_CLIENT_KEY_EXCHANGE, false, c);
  }

  lemma FlowOfFull(c: Choices)
    requires c.early == []
    ensures Flow(DONE, false, c) == FullFlow(c)
  {
    hide Flow;
    HelloFlow(false, c);
    ServerFlow(c);
    ClientFlow(c);
    FlowBack(DONE, false, c);
    FlowBack(FINISH_CLIENT_HANDSHAKE, false, c);
    FlowBack(READ_SERVER_FINISHED, false, c);
    FlowBack(PROCESS_CHANGE_CIPHER_SPEC, false, c);
  }

  lemma FlowOfResumed(c: Choices)
    requires c.early == []
    ensures Flow(DONE, true, c) == ResumedFlow(c)
  {
    hide Flow;
    HelloFlow(true, c);
    FlowBack(DONE, true, c);
    FlowBack(FINISH_CLIENT_HANDSHAKE, true, c);
    FlowBack(FINISH_FLIGHT, true, c);
    FlowBack(SEND_CLIENT_FINISHED, true, c);
    FlowBack(READ_SERVER_FINISHED, true, c);
    FlowBack(PROCESS_CHANGE_CIPHER_SPEC, true, c);
    FlowBack(READ_SESSION_TICKET, true, c);
  }

  // What the negotiation calls for

  predicate Past(hs: Handshake, state: State) {
    RankOf(hs) < Rank(state, hs.session.Some?)
  }

  /** What goes out with the client's Finished. */
  function Closing(nextProto: bool, channelId: bool): seq<Label> {
    [OutChangeCipherSpec] + (if nextProto then [Out(NextProtoOut)] else [])
    + (if channelId then [Out(ChannelIdOut)] else []) + [Out(FinishedOut)]
  }

  /** The choices of the first states. */
  predicate HelloChoices(cfg: Config, hs: Handshake, c: Choices) {
    && (c.cookie == [] || (cfg.dtls && c.cookie == [In(HelloVerifyRequestIn), Out(ClientHelloOut)]))
    && (hs.state == READ_HELLO_VERIFY_REQUEST ==> cfg.dtls)
    && (hs.state <= READ_HELLO_VERIFY_REQUEST ==> c.cookie == [])
    && (hs.state <= ENTER_EARLY_DATA ==> c.early == [])
    && (hs.state > ENTER_EARLY_DATA ==> c.early == if hs.earlyDataOffered && !cfg.dtls then [OutChangeCipherSpec] else [])
    && (hs.state > READ_SERVER_HELLO ==> !hs.earlyDataOffered)
  }

  /** The choices of a full handshake; hs.cipher and the flags say what was negotiated. */
  predicate ServerChoices(hs: Handshake, c: Choices)
    requires hs.cipher.Some?
  {
    && (hs.state > READ_SERVER_CERTIFICATE ==> c.certificate == if hs.CertificateAuth() then [In(CertificateIn)] else [])
    && (c.status == [] || (hs.extensions.statusExpected && c.status == [In(CertificateStatusIn)]))
    && (hs.state > READ_SERVER_KEY_EXCHANGE ==>
          && (c.keyExchange == [] || c.keyExchange == [In(ServerKeyExchangeIn)])
          && (hs.cipher.value.NeedsServerKeyExchange() ==> c.keyExchange != [])
          && (hs.cipher.value.keyExchange.RsaKey? ==> c.keyExchange == []))
    && (hs.state <= READ_CERTIFICATE_REQUEST ==> !hs.certRequest)
    && (hs.certRequest ==> hs.CertificateAuth())
    && (hs.state > READ_CERTIFICATE_REQUEST ==> c.request == if hs.certRequest then [In(CertificateRequestIn)] else [])
  }

  predicate ClientChoices(hs: Handshake, c: Choices) {
    && (hs.state > SEND_CLIENT_CERTIFICATE ==>
          c.clientCertificate == if hs.certRequest && (hs.hasCertificate || hs.connection.version != SSL3)
                                 then [Out(CertificateOut)] else [])
    && (hs.state > SEND_CLIENT_CERTIFICATE_VERIFY ==>
          c.verify == if hs.certRequest && hs.hasCertificate then [Out(CertificateVerifyOut)] else [])
  }

  predicate LastChoices(hs: Handshake, c: Choices) {
    && (Past(hs, SEND_CLIENT_FINISHED) ==> c.closing == Closing(hs.extensions.nextProto, hs.extensions.channelId))
    && (!Past(hs, READ_SESSION_TICKET) ==> c.ticket == [])
  }

  /** The ticket that a ServerHello with these extensions has announced. */
  function Announced(x: Extensions): seq<Label> {
    if x.ticketExpected then [In(NewSessionTicketIn)] else []
  }

  /**
   The handshake goes by the extensions of a ServerHello: it waits for a ticket exactly if one
   was announced, and forgets the announcement only afterwards.
   */
  predicate Heeds(hs: Handshake, x: Extensions, c: Choices) {
    && hs.extensions == x.(ticketExpected := hs.extensions.ticketExpected)
    && if Past(hs, READ_SESSION_TICKET) then c.ticket == Announced(x)
       else hs.extensions.ticketExpected == x.ticketExpected
  }

  /** The extensions by which the handshake goes are those of the ServerHello it has read. */
  ghost predicate HeedsHello(hs: Handshake, log: seq<Event>, c: Choices) {
    hs.state > READ_SERVER_HELLO ==>
      exists k | 0 <= k < |log| :: IsHello(log[k]) && Heeds(hs, log[k].message.extensions, c)
  }

  /** What was said and heard fits what was negotiated. */
  predicate Negotiates(cfg: Config, hs: Handshake, c: Choices)
    requires hs.cipher.Some?
  {
    && HelloChoices(cfg, hs, c)
    && LastChoices(hs, c)
    && (hs.session.None? ==> ServerChoices(hs, c) && ClientChoices(hs, c))
  }

  /** The choices made so far, in a state before or after the ServerHello. */
  predicate Speaks(cfg: Config, hs: Handshake, c: Choices) {
    if hs.state <= READ_SERVER_HELLO then HelloChoices(cfg, hs, c) && c.status == [] && c.ticket == [] && !hs.certRequest
    else hs.cipher.Some? && Negotiates(cfg, hs, c)
  }

  /** From one state to the next, in the order of the handshake at hand. */
  predicate Succeeds(hs: Handshake, next: Handshake) {
    && START_CONNECT <= hs.state < DONE && START_CONNECT < next.state <= DONE
    && if hs.state == START_CONNECT then next.state == ENTER_EARLY_DATA
       else if hs.state == ENTER_EARLY_DATA then next.state == READ_HELLO_VERIFY_REQUEST || next.state == READ_SERVER_HELLO
       else if hs.state == READ_SERVER_HELLO then
         next.state == if next.session.Some? then READ_SESSION_TICKET else READ_SERVER_CERTIFICATE
       else next.session.Some? == hs.session.Some? && Prior(next.state, next.session.Some?) == hs.state
  }

  /** Up to TLS 1.2, where the flows are defined. */
  predicate Classic(hs: Handshake) {
    hs.state <= READ_SERVER_HELLO || AfterHello(hs)
  }

  predicate StepSpeaks(cfg: Config, hs: Handshake, c: Choices, o: Outcome) {
    o.Advanced? && Classic(o.hs) ==>
      var labels := Labels(o.events);
      && Succeeds(hs, o.hs) && (o.hs.state == PROCESS_CHANGE_CIPHER_SPEC ==> o.wait == ReadChangeCipherSpec)
      && Speaks(cfg, o.hs, Note(hs.state, c, labels))
      && if hs.state == PROCESS_CHANGE_CIPHER_SPEC then labels == [] else Piece(hs.state, Note(hs.state, c, labels)) == labels
  }

  predicate Starting(cfg: Config, hs: Handshake, c: Choices) {
    && 0 <= hs.state < DONE && Classic(hs) && Speaks(cfg, hs, c)
    && (hs.session.Some? ==> hs.state <= READ_SERVER_HELLO || hs.state >= SEND_CLIENT_FINISHED)
  }

  lemma LabelsShort(events: seq<Event>)
    ensures |events| == 0 ==> Labels(events) == []
    ensures |events| == 1 ==> Labels(events) == LabelOf(events[0])
    ensures |events| == 2 ==> Labels(events) == LabelOf(events[0]) + LabelOf(events[1])
    ensures |events| == 3 ==> Labels(events) == LabelOf(events[0]) + LabelOf(events[1]) + LabelOf(events[2])
  {
    hide LabelOf;
    if |events| == 1 {
      assert events == [] + [events[0]];
      LabelsAppend([], events[0]);
    } else if |events| == 2 {
      assert events == [] + [events[0]] + [events[1]];
      LabelsAppend([], events[0]);
      LabelsAppend([] + [events[0]], events[1]);
    } else if |events| == 3 {
      assert events == [] + [events[0]] + [events[1]] + [events[2]];
      LabelsAppend([], events[0]);
      LabelsAppend([] + [events[0]], events[1]);
      LabelsAppend([] + [events[0]] + [events[1]], events[2]);
    }
  }

  lemma LabelsOne(events: seq<Event>)
    requires |events| <= 1
    ensures Labels(events) == if events == [] then [] else LabelOf(events[0])
  {
    LabelsShort(events);
  }

  /** What the choices made before a step say after it, if it changed nothing they depend on. */
  lemma ChoicesStay(cfg: Config, hs: Handshake, c: Choices, now: Handshake, labels: seq<Label>)
    requires Starting(cfg, hs, c)
    ensures NotedIn(hs.state, c, labels, Note(hs.state, c, labels))
    ensures hs.state > READ_SERVER_HELLO && now.state > READ_SERVER_HELLO && now.earlyDataOffered == hs.earlyDataOffered
            ==> HelloChoices(cfg, now, Note(hs.state, c, labels))
    ensures hs.state > READ_CERTIFICATE_REQUEST && now.state > READ_CERTIFICATE_REQUEST && hs.session.None?
            && now.cipher == hs.cipher && now.extensions.statusExpected == hs.extensions.statusExpected
            && now.certRequest == hs.certRequest
            ==> now.cipher.Some? && ServerChoices(now, Note(hs.state, c, labels))
    ensures READ_SERVER_HELLO < hs.state < SEND_CLIENT_CERTIFICATE && now.state <= SEND_CLIENT_CERTIFICATE
            ==> ClientChoices(now, Note(hs.state, c, labels))
    ensures READ_SERVER_HELLO < hs.state && hs.state != SEND_CLIENT_FINISHED && hs.state != READ_SESSION_TICKET
            && Succeeds(hs, now) && now.extensions == hs.extensions
            ==> LastChoices(now, Note(hs.state, c, labels))
  {
    hide Note, Closing;
    NotedFields(hs.state, c, labels);
  }

  lemma KeyExchangeLabels(hs: Handshake, a: Answers)
    requires hs.cipher.Some?
    ensures var o := DoReadServerKeyExchange(hs, a);
            o.Advanced? ==>
              Labels(o.events) == if hs.inbox[0].ServerKeyExchange? then [In(ServerKeyExchangeIn)] else []
  {
    hide Labels, Advances, Rests, Hashes, Drains, AllFree, NoCookie, NoHello, HashAll, Leaves, Goes, Sends, HashMessage,
         NextMessage, AddMessage, Renewed;
    var o := DoReadServerKeyExchange(hs, a);
    if o.Advanced? {
      LabelsShort(o.events);
    }
  }

  lemma StartConnectSpeaks(cfg: Config, hs: Handshake, c: Choices, a: Answers)
    requires Starting(cfg, hs, c) && hs.state == START_CONNECT
    ensures StepSpeaks(cfg, hs, c, DoStartConnect(cfg, hs, a))
  {
    hide Labels, Closing, Note, Advances, Rests, Hashes, Drains, AllFree, NoCookie, NoHello, HashAll, Leaves, Goes,
         Sends, HashMessage, NextMessage, AddMessage, Renewed;
    var o := DoStartConnect(cfg, hs, a);
    if o.Advanced? {
      LabelsOne(o.events);
      ChoicesStay(cfg, hs, c, o.hs, Labels(o.events));
    }
  }

  lemma EnterEarlyDataSpeaks(cfg: Config, hs: Handshake, c: Choices, a: Answers)
    requires Starting(cfg, hs, c) && hs.state == ENTER_EARLY_DATA
    ensures StepSpeaks(cfg, hs, c, DoEnterEarlyData(cfg, hs, a))
  {
    hide Labels, Closing, Note, Advances, Rests, Hashes, Drains, AllFree, NoCookie, NoHello, HashAll, Leaves, Goes,
         Sends, HashMessage, NextMessage, AddMessage, Renewed;
    var o := DoEnterEarlyData(cfg, hs, a);
    if o.Advanced? {
      LabelsShort(o.events);
      ChoicesStay(cfg, hs, c, o.hs, Labels(o.events));
    }
  }

  lemma ReadHelloVerifyRequestSpeaks(cfg: Config, hs: Handshake, c: Choices, a: Answers)
    requires Starting(cfg, hs, c) && hs.state == READ_HELLO_VERIFY_REQUEST
    ensures StepSpeaks(cfg, hs, c, DoReadHelloVerifyRequest(hs, a))
  {
    hide Labels, Closing, Note, Advances, Rests, Hashes, Drains, AllFree, NoCookie, NoHello, HashAll, Leaves, Goes,
         Sends, HashMessage, NextMessage, AddMessage, Renewed, ClientChoices, Piece;
    var o := DoReadHelloVerifyRequest(hs, a);
    if o.Advanced? {
      LabelsShort(o.events);
      ChoicesStay(cfg, hs, c, o.hs, Labels(o.events));
    }
  }

  lemma ReadServerHelloSpeaks(cfg: Config, hs: Handshake, c: Choices, a: Answers)
    requires Starting(cfg, hs, c) && hs.state == READ_SERVER_HELLO
    ensures StepSpeaks(cfg, hs, c, DoReadServerHello(cfg, hs, a))
  {
    hide Labels, Closing, Note, Advances, Rests, Hashes, Drains, AllFree, NoCookie, NoHello, HashAll, Leaves, Goes,
         Sends, HashMessage, NextMessage, AddMessage, Renewed;
    var o := DoReadServerHello(cfg, hs, a);
    if o.Advanced? {
      LabelsOne(o.events);
      ChoicesStay(cfg, hs, c, o.hs, Labels(o.events));
    }
  }

  lemma ReadServerCertificateSpeaks(cfg: Config, hs: Handshake, c: Choices, a: Answers)
    requires Starting(cfg, hs, c) && hs.state == READ_SERVER_CERTIFICATE
    ensures StepSpeaks(cfg, hs, c, DoReadServerCertificate(hs, a))
  {
    hide Labels, Closing, Note, Advances, Rests, Hashes, Drains, AllFree, NoCookie, NoHello, HashAll, Leaves, Goes,
         Sends, HashMessage, NextMessage, AddMessage, Renewed, HelloChoices, ClientChoices, LastChoices, Piece;
    var o := DoReadServerCertificate(hs, a);
    if o.Advanced? {
      LabelsOne(o.events);
      ChoicesStay(cfg, hs, c, o.hs, Labels(o.events));
    }
  }

  lemma ReadCertificateStatusSpeaks(cfg: Config, hs: Handshake, c: Choices, a: Answers)
    requires Starting(cfg, hs, c) && hs.state == READ_CERTIFICATE_STATUS
    ensures StepSpeaks(cfg, hs, c, DoReadCertificateStatus(hs, a))
  {
    hide Labels, Closing, Note, Advances, Rests, Hashes, Drains, AllFree, NoCookie, NoHello, HashAll, Leaves, Goes,
         Sends, HashMessage, NextMessage, AddMessage, Renewed, HelloChoices, ClientChoices, LastChoices, Piece;
    var o := DoReadCertificateStatus(hs, a);
    if o.Advanced? {
      LabelsOne(o.events);
      ChoicesStay(cfg, hs, c, o.hs, Labels(o.events));
    }
  }

  lemma VerifyServerCertificateSpeaks(cfg: Config, hs: Handshake, c: Choices, a: Answers)
    requires Starting(cfg, hs, c) && hs.state == VERIFY_SERVER_CERTIFICATE
    ensures StepSpeaks(cfg, hs, c, DoVerifyServerCertificate(cfg, hs, a))
  {
    hide Labels, Closing, Note, Advances, Rests, Hashes, Drains, AllFree, NoCookie, NoHello, HashAll, Leaves, Goes,
         Sends, HashMessage, NextMessage, AddMessage, Renewed, HelloChoices, ClientChoices, LastChoices;
    var o := DoVerifyServerCertificate(cfg, hs, a);
    if o.Advanced? {
      LabelsOne(o.events);
      ChoicesStay(cfg, hs, c, o.hs, Labels(o.events));
    }
  }

  lemma ReadServerKeyExchangeSpeaks(cfg: Config, hs: Handshake, c: Choices, a: Answers)
    requires Starting(cfg, hs, c) && hs.state == READ_SERVER_KEY_EXCHANGE
    ensures StepSpeaks(cfg, hs, c, DoReadServerKeyExchange(hs, a))
  {
    hide Labels, Closing, Note, Advances, Rests, Hashes, Drains, AllFree, NoCookie, NoHello, HashAll, Leaves, Goes,
         Sends, HashMessage, NextMessage, AddMessage, Renewed, HelloChoices, ClientChoices, LastChoices, LabelOf, Piece;
    var o := DoReadServerKeyExchange(hs, a);
    if o.Advanced? {
      KeyExchangeLabels(hs, a);
      ChoicesStay(cfg, hs, c, o.hs, Labels(o.events));
    }
  }

  lemma ReadCertificateRequestSpeaks(cfg: Config, hs: Handshake, c: Choices, a: Answers)
    requires Starting(cfg, hs, c) && hs.state == READ_CERTIFICATE_REQUEST
    ensures StepSpeaks(cfg, hs, c, DoReadCertificateRequest(hs, a))
  {
    hide Labels, Closing, Note, Advances, Rests, Hashes, Drains, AllFree, NoCookie, NoHello, HashAll, Leaves, Goes,
         Sends, HashMessage, NextMessage, AddMessage, Renewed, HelloChoices, ClientChoices, LastChoices, Piece;
    var o := DoReadCertificateRequest(hs, a);
    if o.Advanced? {
      LabelsOne(o.events);
      ChoicesStay(cfg, hs, c, o.hs, Labels(o.events));
    }
  }

  lemma ReadServerHelloDoneSpeaks(cfg: Config, hs: Handshake, c: Choices, a: Answers)
    requires Starting(cfg, hs, c) && hs.state == READ_SERVER_HELLO_DONE
    ensures StepSpeaks(cfg, hs, c, DoReadServerHelloDone(hs, a))
  {
    hide Labels, Closing, Note, Advances, Rests, Hashes, Drains, AllFree, NoCookie, NoHello, HashAll, Leaves, Goes,
         Sends, HashMessage, NextMessage, AddMessage, Renewed, HelloChoices, ServerChoices, LastChoices;
    var o := DoReadServerHelloDone(hs, a);
    if o.Advanced? {
      LabelsOne(o.events);
      ChoicesStay(cfg, hs, c, o.hs, Labels(o.events));
    }
  }

  lemma SendClientCertificateSpeaks(cfg: Config, hs: Handshake, c: Choices, a: Answers)
    requires Starting(cfg, hs, c) && hs.state == SEND_CLIENT_CERTIFICATE
    ensures StepSpeaks(cfg, hs, c, DoSendClientCertificate(hs, a))
  {
    hide Labels, Closing, Note, Advances, Rests, Hashes, Drains, AllFree, NoCookie, NoHello, HashAll, Leaves, Goes,
         Sends, HashMessage, NextMessage, AddMessage, Renewed, HelloChoices, ServerChoices, LastChoices, Piece;
    var o := DoSendClientCertificate(hs, a);
    if o.Advanced? {
      LabelsOne(o.events);
      ChoicesStay(cfg, hs, c, o.hs, Labels(o.events));
    }
  }

  lemma SendClientKeyExchangeSpeaks(cfg: Config, hs: Handshake, c: Choices, a: Answers)
    requires Starting(cfg, hs, c) && hs.state == SEND_CLIENT_KEY_EXCHANGE
    ensures StepSpeaks(cfg, hs, c, DoSendClientKeyExchange(hs, a))
  {
    hide Labels, Closing, Note, Advances, Rests, Hashes, Drains, AllFree, NoCookie, NoHello, HashAll, Leaves, Goes,
         Sends, HashMessage, NextMessage, AddMessage, Renewed, HelloChoices, ServerChoices, LastChoices;
    var o := DoSendClientKeyExchange(hs, a);
    if o.Advanced? {
      LabelsShort(o.events);
      ChoicesStay(cfg, hs, c, o.hs, Labels(o.events));
    }
  }

  lemma SendClientCertificateVerifySpeaks(cfg: Config, hs: Handshake, c: Choices, a: Answers)
    requires Starting(cfg, hs, c) && hs.state == SEND_CLIENT_CERTIFICATE_VERIFY
    ensures StepSpeaks(cfg, hs, c, DoSendClientCertificateVerify(cfg, hs, a))
  {
    hide Labels, Closing, Note, Advances, Rests, Hashes, Drains, AllFree, NoCookie, NoHello, HashAll, Leaves, Goes,
         Sends, HashMessage, NextMessage, AddMessage, Renewed, HelloChoices, ServerChoices, LastChoices, Piece;
    var o := DoSendClientCertificateVerify(cfg, hs, a);
    if o.Advanced? {
      LabelsOne(o.events);
      ChoicesStay(cfg, hs, c, o.hs, Labels(o.events));
    }
  }

  lemma FinishFlightSpeaks(cfg: Config, hs: Handshake, c: Choices, a: Answers)
    requires Starting(cfg, hs, c) && hs.state == FINISH_FLIGHT
    ensures StepSpeaks(cfg, hs, c, DoFinishFlight(cfg, hs, a))
  {
    hide Labels, Closing, Note, Advances, Rests, Hashes, Drains, AllFree, NoCookie, NoHello, HashAll, Leaves, Goes,
         Sends, HashMessage, NextMessage, AddMessage, Renewed, HelloChoices, ServerChoices, LastChoices;
    var o := DoFinishFlight(cfg, hs, a);
    if o.Advanced? {
      LabelsOne(o.events);
      ChoicesStay(cfg, hs, c, o.hs, Labels(o.events));
    }
  }

  lemma ReadSessionTicketSpeaks(cfg: Config, hs: Handshake, c: Choices, a: Answers)
    requires Starting(cfg, hs, c) && hs.state == READ_SESSION_TICKET
    ensures StepSpeaks(cfg, hs, c, DoReadSessionTicket(hs, a))
  {
    hide Labels, Closing, Note, Advances, Rests, Hashes, Drains, AllFree, NoCookie, NoHello, HashAll, Leaves, Goes,
         Sends, HashMessage, NextMessage, AddMessage, Renewed, HelloChoices, ServerChoices, Piece;
    var o := DoReadSessionTicket(hs, a);
    if o.Advanced? {
      LabelsOne(o.events);
      ChoicesStay(cfg, hs, c, o.hs, Labels(o.events));
    }
  }

  lemma ProcessChangeCipherSpecSpeaks(cfg: Config, hs: Handshake, c: Choices, a: Answers)
    requires Starting(cfg, hs, c) && hs.state == PROCESS_CHANGE_CIPHER_SPEC
    ensures StepSpeaks(cfg, hs, c, DoProcessChangeCipherSpec(hs, a))
  {
    hide Labels, Closing, Note, Advances, Rests, Hashes, Drains, AllFree, NoCookie, NoHello, HashAll, Leaves, Goes,
         Sends, HashMessage, NextMessage, AddMessage, Renewed, HelloChoices, ServerChoices, LastChoices;
    var o := DoProcessChangeCipherSpec(hs, a);
    if o.Advanced? {
      LabelsOne(o.events);
      ChoicesStay(cfg, hs, c, o.hs, Labels(o.events));
    }
  }

  lemma ReadServerFinishedSpeaks(cfg: Config, hs: Handshake, c: Choices, a: Answers)
    requires Starting(cfg, hs, c) && hs.state == READ_SERVER_FINISHED
    ensures StepSpeaks(cfg, hs, c, DoReadServerFinished(cfg, hs, a))
  {
    hide Labels, Closing, Note, Advances, Rests, Hashes, Drains, AllFree, NoCookie, NoHello, HashAll, Leaves, Goes,
         Sends, HashMessage, NextMessage, AddMessage, Renewed, HelloChoices, ServerChoices, LastChoices;
    var o := DoReadServerFinished(cfg, hs, a);
    if o.Advanced? {
      LabelsShort(o.events);
      ChoicesStay(cfg, hs, c, o.hs, Labels(o.events));
    }
  }

  lemma FinishClientHandshakeSpeaks(cfg: Config, hs: Handshake, c: Choices, a: Answers)
    requires Starting(cfg, hs, c) && hs.state == FINISH_CLIENT_HANDSHAKE
    ensures StepSpeaks(cfg, hs, c, DoFinishClientHandshake(hs, a))
  {
    hide Labels, Closing, Note, Advances, Rests, Hashes, Drains, AllFree, NoCookie, NoHello, HashAll, Leaves, Goes,
         Sends, HashMessage, NextMessage, AddMessage, Renewed, HelloChoices, ServerChoices, LastChoices;
    var o := DoFinishClientHandshake(hs, a);
    if o.Advanced? {
      LabelsOne(o.events);
      ChoicesStay(cfg, hs, c, o.hs, Labels(o.events));
    }
  }

  lemma LabelsOfClosing(negotiated: Extensions, a: Answers)
    ensures Labels(ClosingEvents(negotiated, a)) + [Out(FinishedOut)] == Closing(negotiated.nextProto, negotiated.channelId)
  {
    hide Labels;
    var keys := [SentChangeCipherSpec, WriteKeysOn];
    var next := MessageIf(negotiated.nextProto, NextProtoOut, a.outNextProto);
    var id := MessageIf(negotiated.channelId, ChannelIdOut, a.outChannelId);
    LabelsConcat(keys + next, id);
    LabelsConcat(keys, next);
    LabelsShort(keys);
    LabelsShort(next);
    LabelsShort(id);
  }

  lemma SendClientFinishedSpeaks(cfg: Config, hs: Handshake, c: Choices, a: Answers)
    requires Starting(cfg, hs, c) && hs.state == SEND_CLIENT_FINISHED
    ensures StepSpeaks(cfg, hs, c, DoSendClientFinished(cfg, hs, a))
  {
    hide Labels, Closing, Note, Advances, Rests, Hashes, Drains, AllFree, NoCookie, NoHello, HashAll, Sends,
         BeforeFinished, ClosingEvents, HelloChoices, ServerChoices;
    var o := DoSendClientFinished(cfg, hs, a);
    if o.Advanced? {
      var before := ClosingEvents(hs.extensions, a);
      var last := o.events[|before|..];
      assert o.events == before + last && |last| == 1;
      LabelsConcat(before, last);
      LabelsOne(last);
      LabelsOfClosing(hs.extensions, a);
      ChoicesStay(cfg, hs, c, o.hs, Labels(o.events));
    }
  }

  lemma EveryStepSpeaks(cfg: Config, hs: Handshake, c: Choices, a: Answers)
    requires Starting(cfg, hs, c)
    ensures StepSpeaks(cfg, hs, c, Step(cfg, hs, a))
  {
    StateInRange(cfg, hs, c);
    hide StepSpeaks, Starting;
    hide DoStartConnect, DoEnterEarlyData, DoReadHelloVerifyRequest, DoReadServerHello,
         DoReadServerCertificate, DoReadCertificateStatus, DoVerifyServerCertificate,
         DoReadServerKeyExchange, DoReadCertificateRequest, DoReadServerHelloDone, DoSendClientCertificate,
         DoSendClientKeyExchange, DoSendClientCertificateVerify, DoSendClientFinished, DoFinishFlight,
         DoReadSessionTicket, DoProcessChangeCipherSpec, DoReadServerFinished, DoFinishClientHandshake;
    if hs.state == START_CONNECT {
      StartConnectSpeaks(cfg, hs, c, a);
    } else if hs.state == ENTER_EARLY_DATA {
      EnterEarlyDataSpeaks(cfg, hs, c, a);
    } else if hs.state == READ_HELLO_VERIFY_REQUEST {
      ReadHelloVerifyRequestSpeaks(cfg, hs, c, a);
    } else if hs.state == READ_SERVER_HELLO {
      ReadServerHelloSpeaks(cfg, hs, c, a);
    } else if hs.state == READ_SERVER_CERTIFICATE {
      ReadServerCertificateSpeaks(cfg, hs, c, a);
    } else if hs.state == READ_CERTIFICATE_STATUS {
      ReadCertificateStatusSpeaks(cfg, hs, c, a);
    } else if hs.state == VERIFY_SERVER_CERTIFICATE {
      VerifyServerCertificateSpeaks(cfg, hs, c, a);
    } else if hs.state == READ_SERVER_KEY_EXCHANGE {
      ReadServerKeyExchangeSpeaks(cfg, hs, c, a);
    } else if hs.state == READ_CERTIFICATE_REQUEST {
      ReadCertificateRequestSpeaks(cfg, hs, c, a);
    } else if hs.state == READ_SERVER_HELLO_DONE {
      ReadServerHelloDoneSpeaks(cfg, hs, c, a);
    } else if hs.state == SEND_CLIENT_CERTIFICATE {
      SendClientCertificateSpeaks(cfg, hs, c, a);
    } else if hs.state == SEND_CLIENT_KEY_EXCHANGE {
      SendClientKeyExchangeSpeaks(cfg, hs, c, a);
    } else if hs.state == SEND_CLIENT_CERTIFICATE_VERIFY {
      SendClientCertificateVerifySpeaks(cfg, hs, c, a);
    } else if hs.state == SEND_CLIENT_FINISHED {
      SendClientFinishedSpeaks(cfg, hs, c, a);
    } else if hs.state == FINISH_FLIGHT {
      FinishFlightSpeaks(cfg, hs, c, a);
    } else if hs.state == READ_SESSION_TICKET {
      ReadSessionTicketSpeaks(cfg, hs, c, a);
    } else if hs.state == PROCESS_CHANGE_CIPHER_SPEC {
      ProcessChangeCipherSpecSpeaks(cfg, hs, c, a);
    } else if hs.state == READ_SERVER_FINISHED {
      ReadServerFinishedSpeaks(cfg, hs, c, a);
    } else if hs.state == FINISH_CLIENT_HANDSHAKE {
      FinishClientHandshakeSpeaks(cfg, hs, c, a);
    }
  }

  lemma StateInRange(cfg: Config, hs: Handshake, c: Choices)
    requires Starting(cfg, hs, c)
    ensures 0 <= hs.state < DONE && (hs.state >= READ_SERVER_CERTIFICATE ==> hs.cipher.Some?) && hs.state != TLS13
  {
  }

  // The extensions of the ServerHello

  lemma StepHeeds(cfg: Config, hs: Handshake, c: Choices, a: Answers, x: Extensions)
    requires Starting(cfg, hs, c) && hs.state > READ_SERVER_HELLO && Heeds(hs, x, c)
    requires StepSpeaks(cfg, hs, c, Step(cfg, hs, a))
    ensures var o := Step(cfg, hs, a);
            o.Advanced? && Classic(o.hs) ==> Heeds(o.hs, x, Note(hs.state, c, Labels(o.events)))
  {
    hide Speaks, Labels, Piece, Closing, Hashes, Drains, AllFree, NoCookie, NoHello, Rests;
    StateInRange(cfg, hs, c);
    var o := Step(cfg, hs, a);
    if o.Advanced? && Classic(o.hs) {
      NotedFields(hs.state, c, Labels(o.events));
      if hs.state == READ_SESSION_TICKET {
        assert o == DoReadSessionTicket(hs, a);
        TicketLabels(hs, a);
      } else {
        hide Step, Note;
        assert o.hs.extensions == hs.extensions;
      }
    }
  }

  lemma TicketLabels(hs: Handshake, a: Answers)
    ensures var o := DoReadSessionTicket(hs, a);
            o.Advanced? ==>
              && o.hs.extensions == hs.extensions.(ticketExpected := o.hs.extensions.ticketExpected)
              && Labels(o.events) == if hs.extensions.ticketExpected then [In(NewSessionTicketIn)] else []
  {
    hide Labels, Leaves, Goes, HashMessage, NextMessage, Renewed, Hashes, Drains, AllFree, NoCookie, NoHello;
    var o := DoReadSessionTicket(hs, a);
    if o.Advanced? {
      LabelsShort(o.events);
    }
  }

  lemma HelloHeeds(cfg: Config, hs: Handshake, a: Answers, c: Choices)
    requires hs.state == READ_SERVER_HELLO && c.ticket == []
    ensures var o := DoReadServerHello(cfg, hs, a);
            o.Advanced? && Classic(o.hs) ==>
              |o.events| == 1 && IsHello(o.events[0]) && Heeds(o.hs, o.events[0].message.extensions, c)
  {
    hide Leaves, Goes, HashMessage, NextMessage, Versioned, HelloAcceptable, Hashes, Drains, AllFree, NoCookie, NoHello;
  }

  lemma StepHeedsHello(cfg: Config, hs: Handshake, log: seq<Event>, c: Choices, a: Answers)
    requires Starting(cfg, hs, c) && HeedsHello(hs, log, c)
    requires StepSpeaks(cfg, hs, c, Step(cfg, hs, a))
    ensures var o := Step(cfg, hs, a);
            o.Advanced? && Classic(o.hs) ==> HeedsHello(o.hs, log + o.events, Note(hs.state, c, Labels(o.events)))
  {
    hide Step, Labels, Note, Piece, Heeds, Starting, StepSpeaks, DoReadServerHello, Advances, Rests;
    var o := Step(cfg, hs, a);
    if o.Advanced? && Classic(o.hs) && o.hs.state > READ_SERVER_HELLO {
      var c' := Note(hs.state, c, Labels(o.events));
      if hs.state > READ_SERVER_HELLO {
        var k :| 0 <= k < |log| && IsHello(log[k]) && Heeds(hs, log[k].message.extensions, c);
        StepHeeds(cfg, hs, c, a, log[k].message.extensions);
        assert (log + o.events)[k] == log[k];
      } else {
        HelloIsNext(cfg, hs, c, a);
        HelloHeeds(cfg, hs, a, c');
        assert (log + o.events)[|log|] == o.events[0];
      }
    }
  }

  /** Only the state that reads the ServerHello leads beyond it. */
  lemma HelloIsNext(cfg: Config, hs: Handshake, c: Choices, a: Answers)
    requires Starting(cfg, hs, c) && StepSpeaks(cfg, hs, c, Step(cfg, hs, a)) && hs.state <= READ_SERVER_HELLO
    ensures var o := Step(cfg, hs, a);
            o.Advanced? && Classic(o.hs) && o.hs.state > READ_SERVER_HELLO ==>
              && hs.state == READ_SERVER_HELLO && o == DoReadServerHello(cfg, hs, a)
              && Note(hs.state, c, Labels(o.events)).ticket == []
  {
    hide Labels, Piece, DoReadServerHello, Advances, Rests;
  }

  // Runs

  /** A ChangeCipherSpec that was accepted while waiting belongs to the state that waited. */
  function Heard(hs: Handshake, wait: Wait): seq<Label> {
    if hs.state == PROCESS_CHANGE_CIPHER_SPEC && wait != ReadChangeCipherSpec then [InChangeCipherSpec] else []
  }

  ghost predicate Spoken(cfg: Config, m: Machine, c: Choices) {
    0 <= m.hs.state <= DONE && Classic(m.hs) ==>
      && Speaks(cfg, m.hs, c)
      && Labels(m.log) == Flow(m.hs.state, m.hs.session.Some?, c) + Heard(m.hs, m.wait)
      && HeedsHello(m.hs, m.log, c)
  }

  /** The flow grows by what the step says. */
  lemma FlowGrows(hs: Handshake, next: Handshake, c: Choices, labels: seq<Label>)
    requires Succeeds(hs, next)
    requires var piece := if hs.state == PROCESS_CHANGE_CIPHER_SPEC then [InChangeCipherSpec] else labels;
             Piece(hs.state, Note(hs.state, c, labels)) == piece
    requires hs.state <= ENTER_EARLY_DATA && next.state == READ_SERVER_HELLO ==> c.cookie == []
    ensures Flow(next.state, next.session.Some?, Note(hs.state, c, labels))
         == Flow(hs.state, hs.session.Some?, c)
            + if hs.state == PROCESS_CHANGE_CIPHER_SPEC then [InChangeCipherSpec] else labels
  {
    hide Flow;
    var resumed, c' := next.session.Some?, Note(hs.state, c, labels);
    var s := hs.state;
    if s <= READ_SERVER_HELLO {
      HelloIsCommon(s, c);
      NoteIsLater(s, resumed, c, s, labels);
      FlowBack(s + 1, resumed, c');
      if s == ENTER_EARLY_DATA {
        FlowBack(READ_SERVER_HELLO, resumed, c');
      }
      if s == READ_SERVER_HELLO {
        FlowBack(next.state, resumed, c');
      }
    } else {
      NoteIsLater(s, resumed, c, s, labels);
      FlowBack(next.state, resumed, c');
    }
  }

  lemma ModernStaysModern(cfg: Config, hs: Handshake, log: seq<Event>, a: Answers)
    requires Facts(cfg, hs, Ok, log) && !Classic(hs) && hs.state != DONE
    ensures var o := Step(cfg, hs, a); o.Advanced? ==> !Classic(o.hs)
  {
    hide Hashes, Drains, AllFree, NoCookie, NoHello, HashAll, Goes, Sends;
    assert hs.state == TLS13 || hs.state == FINISH_CLIENT_HANDSHAKE;
  }

  /** What was said depends on neither the queue nor a pending key. */
  lemma SpokenIgnores(cfg: Config, hs: Handshake, now: Handshake, log: seq<Event>, c: Choices)
    requires now == hs.(inbox := now.inbox, pendingKeyOp := now.pendingKeyOp)
    ensures Speaks(cfg, now, c) == Speaks(cfg, hs, c)
    ensures HeedsHello(now, log, c) == HeedsHello(hs, log, c)
  {
    assert forall x :: Heeds(now, x, c) == Heeds(hs, x, c);
    hide Heeds;
  }

  lemma StepSpoken(cfg: Config, m: Machine, a: Answers, c: Choices)
    returns (c': Choices)
    requires Spoken(cfg, m, c) && Facts(cfg, m.hs, m.wait, m.log) && m.wait.Ok? && m.hs.state != DONE
    ensures Spoken(cfg, Apply(m, Step(cfg, m.hs, a)), c')
  {
    hide Step, Flow, Labels, Speaks, Note, Piece, HeedsHello;
    var o := Step(cfg, m.hs, a);
    c' := c;
    if o.Paused? {
      PauseLeavesNoTrace(cfg, m.hs, a);
      SpokenIgnores(cfg, m.hs, o.hs, m.log, c);
      assert m.log + o.events == m.log;
    } else if o.Advanced? && Classic(o.hs) {
      if !Classic(m.hs) {
        ModernStaysModern(cfg, m.hs, m.log, a);
      } else {
        var labels := Labels(o.events);
        EveryStepSpeaks(cfg, m.hs, c, a);
        StepHeedsHello(cfg, m.hs, m.log, c, a);
        c' := Note(m.hs.state, c, labels);
        NoCookieYet(cfg, m.hs, c);
        assert Piece(PROCESS_CHANGE_CIPHER_SPEC, c') == [InChangeCipherSpec] by {
          AcceptedPiece(c');
        }
        FlowGrows(m.hs, o.hs, c, labels);
        LabelsConcat(m.log, o.events);
      }
    }
  }

  lemma AcceptedPiece(c: Choices)
    ensures Piece(PROCESS_CHANGE_CIPHER_SPEC, c) == [InChangeCipherSpec]
  {
  }

  lemma NoCookieYet(cfg: Config, hs: Handshake, c: Choices)
    requires Speaks(cfg, hs, c)
    ensures hs.state <= ENTER_EARLY_DATA ==> c.cookie == []
  {
  }

  lemma HelloStaysHeeded(hs: Handshake, log: seq<Event>, e: Event, c: Choices)
    requires HeedsHello(hs, log, c)
    ensures HeedsHello(hs, log + [e], c)
  {
    hide Heeds;
    if hs.state > READ_SERVER_HELLO {
      var k :| 0 <= k < |log| && IsHello(log[k]) && Heeds(hs, log[k].message.extensions, c);
      assert (log + [e])[k] == log[k];
    }
  }

  lemma TickSpoken(cfg: Config, m: Machine, input: Input, c: Choices)
    returns (c': Choices)
    requires Spoken(cfg, m, c) && Facts(cfg, m.hs, m.wait, m.log)
    ensures Spoken(cfg, Tick(cfg, m, input), c')
  {
    hide Step, Apply, Flow, Labels, Speaks, HeedsHello;
    if m.wait.Ok? && m.hs.state != DONE {
      c' := StepSpoken(cfg, m, input.answers, c);
    } else {
      c' := c;
      if Reads(m.wait) {
        SpokenIgnores(cfg, m.hs, Arrive(m.hs, input.arrived), m.log, c);
      }
      LabelsAppend(m.log, ChangeCipherSpecAccepted);
      if HeedsHello(m.hs, m.log, c) {
        HelloStaysHeeded(m.hs, m.log, ChangeCipherSpecAccepted, c);
        SpokenIgnores(cfg, m.hs, Arrive(m.hs, input.arrived), m.log + [ChangeCipherSpecAccepted], c);
      }
    }
  }

  lemma {:induction false} RunSpoken(cfg: Config, configured: Option<Session>, m: Machine, inputs: seq<Input>, c: Choices)
    returns (c': Choices)
    requires Spoken(cfg, m, c) && Invariant(cfg, configured, m)
    ensures Spoken(cfg, Run(cfg, m, inputs), c')
    decreases |inputs|
  {
    hide Spoken, Tick, Facts, Follows, CookiesForgotten;
    c' := c;
    if inputs != [] {
      c' := TickSpoken(cfg, m, inputs[0], c);
      TickKeepsInvariant(cfg, configured, m, inputs[0]);
      c' := RunSpoken(cfg, configured, Tick(cfg, m, inputs[0]), inputs[1..], c');
    }
  }

  /**
   Main result: everything said and heard by a completed handshake, in order, is the flow of a
   full handshake, or of a resumed one if a session is resumed, with the choices that the
   negotiation calls for; NewSessionTicket is there exactly if the ServerHello announced it.
   */
  lemma MessagesFollowTheFlow(cfg: Config, hs: Handshake, inputs: seq<Input>)
    requires Initial(hs)
    ensures var m := Run(cfg, Start(hs), inputs);
            m.hs.state == DONE && m.hs.connection.version < TLS1_3 ==>
              m.hs.cipher.Some? &&
              exists c: Choices, k | 0 <= k < |m.log| ::
                && IsHello(m.log[k]) && Heeds(m.hs, m.log[k].message.extensions, c)
                && c.ticket == Announced(m.log[k].message.extensions)
                && Negotiates(cfg, m.hs, c)
                && Labels(m.log) == if m.hs.session.Some? then ResumedFlow(c) else FullFlow(c)
  {
    hide Run, Flow, Labels, FullFlow, ResumedFlow, Follows, CookiesForgotten, Heeds;
    var m := Run(cfg, Start(hs), inputs);
    StartIsInvariant(cfg, hs);
    StartIsSpoken(cfg, hs);
    RunKeepsInvariant(cfg, hs.session, Start(hs), inputs);
    var c := RunSpoken(cfg, hs.session, Start(hs), inputs, NO_CHOICES);
    if m.hs.state == DONE && m.hs.connection.version < TLS1_3 {
      var k :| 0 <= k < |m.log| && IsHello(m.log[k]) && Heeds(m.hs, m.log[k].message.extensions, c);
      TicketHeeded(m.hs, m.log[k].message.extensions, c);
      assert Negotiates(cfg, m.hs, c);
      assert Labels(m.log) == Flow(DONE, m.hs.session.Some?, c) + [];
      if m.hs.session.Some? {
        FlowOfResumed(c);
      } else {
        FlowOfFull(c);
      }
    }
  }

  lemma TicketHeeded(hs: Handshake, x: Extensions, c: Choices)
    requires Heeds(hs, x, c) && hs.state == DONE
    ensures c.ticket == Announced(x)
  {
  }

  lemma StartIsSpoken(cfg: Config, hs: Handshake)
    requires Initial(hs)
    ensures Spoken(cfg, Start(hs), NO_CHOICES)
  {
  }
}
