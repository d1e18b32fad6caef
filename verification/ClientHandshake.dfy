/**
 The TLS and DTLS client handshake up to version 1.2: one function per state of
 ssl_client_handshake (handshake_client.cc).  Each looks at the handshake, at what the
 environment answers in this step, and says how the handshake continues and what it waits
 for.  Cryptography, certificate verification and parsing are answers of the environment.
 */
module ClientHandshake {
  import opened Wrappers

  const SSL3: nat := 0x0300
  const TLS1_2: nat := 0x0303
  const TLS1_3: nat := 0x0304

  /** ssl_client_hs_state_t, with the source's numbers. */
  type State = int

  const START_CONNECT: State := 0
  const ENTER_EARLY_DATA: State := 1
  const READ_HELLO_VERIFY_REQUEST: State := 2
  const READ_SERVER_HELLO: State := 3
  const TLS13: State := 4
  const READ_SERVER_CERTIFICATE: State := 5
  const READ_CERTIFICATE_STATUS: State := 6
  const VERIFY_SERVER_CERTIFICATE: State := 7
  const READ_SERVER_KEY_EXCHANGE: State := 8
  const READ_CERTIFICATE_REQUEST: State := 9
  const READ_SERVER_HELLO_DONE: State := 10
  const SEND_CLIENT_CERTIFICATE: State := 11
  const SEND_CLIENT_KEY_EXCHANGE: State := 12
  const SEND_CLIENT_CERTIFICATE_VERIFY: State := 13
  const SEND_CLIENT_FINISHED: State := 14
  const FINISH_FLIGHT: State := 15
  const READ_SESSION_TICKET: State := 16
  const PROCESS_CHANGE_CIPHER_SPEC: State := 17
  const READ_SERVER_FINISHED: State := 18
  const FINISH_CLIENT_HANDSHAKE: State := 19
  const DONE: State := 20

  /** ssl_hs_wait_t without the values that only servers and TLS 1.3 use. */
  datatype Wait =
    | Ok
    | Error
    | Flush
    | ReadHello
    | ReadMessage
    | ReadChangeCipherSpec
    | CertificateVerify
    | X509Lookup
    | ChannelIdLookup
    | PrivateKeyOperation
    | EarlyReturn

  datatype KeyExchange = RsaKey | Ecdhe | PlainPsk

  datatype Cipher = Cipher(id: nat, keyExchange: KeyExchange, pskAuth: bool, aead: bool)
  {
    /** ssl_cipher_uses_certificate_auth: PSK ciphers are the only ones without. */
    predicate CertificateAuth() {
      !pskAuth
    }

    /** ssl_cipher_requires_server_key_exchange */
    predicate NeedsServerKeyExchange() {
      keyExchange.Ecdhe?
    }
  }

  datatype Session = Session(version: nat, cipher: Cipher, ems: bool, id: seq<bv8>, master: nat, certs: seq<seq<bv8>>)

  /** What the extensions of a ServerHello turn on. */
  datatype Extensions = Extensions(
    ems: bool, ticketExpected: bool, statusExpected: bool, nextProto: bool, channelId: bool)

  /** A handshake message from the server; raw is the whole message, the rest what is parsed from it. */
  datatype Message =
    | HelloVerifyRequest(raw: seq<bv8>)
    | ServerHello(raw: seq<bv8>, version: nat, sessionId: seq<bv8>, cipher: Option<Cipher>, compression: nat,
                  extensions: Extensions)
    | Certificate(raw: seq<bv8>, chain: seq<seq<bv8>>)
    | CertificateStatus(raw: seq<bv8>)
    | ServerKeyExchange(raw: seq<bv8>)
    | CertificateRequest(raw: seq<bv8>)
    | ServerHelloDone(raw: seq<bv8>, body: seq<bv8>)
    | NewSessionTicket(raw: seq<bv8>, ticket: seq<bv8>)
    | Finished(raw: seq<bv8>, verifyData: seq<bv8>)
    | OtherMessage(raw: seq<bv8>)

  datatype Outgoing =
    | ClientHelloOut
    | CertificateOut
    | ClientKeyExchangeOut
    | CertificateVerifyOut
    | NextProtoOut
    | ChannelIdOut
    | FinishedOut

  /** What a run of the handshake does, in order. */
  datatype Event =
    | Sent(kind: Outgoing, bytes: seq<bv8>)
    | SentChangeCipherSpec
    | Consumed(message: Message)
    | TranscriptReset
    | CertificateVerified(chain: seq<seq<bv8>>)
    | MasterDerived(secret: nat)
    | SignatureVerified
    | ChangeCipherSpecAccepted
    | WriteKeysOn
    | ReadKeysOn
    | ServerFinishedMatched(master: nat, verifyData: seq<bv8>)
    | Completed

  datatype VerifyResult = VerifyOk | VerifyInvalid | VerifyRetry

  datatype Callback = Succeed | Fail | Retry

  /** Configuration and the functions of the cryptographic library. */
  datatype Config = Config(
    dtls: bool,
    maxVersion: nat,
    versions: set<nat>,
    falseStart: bool,
    verifyNone: bool,
    customVerify: bool,
    customKey: bool,
    allowed: (Cipher, nat) -> bool,
    finishedMac: (nat, seq<bv8>, bool) -> seq<bv8>,
    finishedMessage: seq<bv8> -> seq<bv8>)

  /** What the environment answers during one step; fine says whether everything not listed succeeds. */
  datatype Answers = Answers(
    fine: bool,
    out: seq<bv8>,
    outNextProto: seq<bv8>,
    outChannelId: seq<bv8>,
    sessionUsable: bool,
    sessionContextValid: bool,
    freshSessionId: seq<bv8>,
    offerEarlyData: bool,
    hasProtocol: bool,
    verify: VerifyResult,
    signatureOk: bool,
    certificate: Callback,
    hasCertificate: bool,
    sign: Callback,
    complete: Callback,
    channelIdKey: bool,
    master: nat,
    ticketId: seq<bv8>,
    tls13: Wait)

  /** What outlives a handshake: whether there has been one, its version and the server's certificates. */
  datatype Connection = Connection(
    haveVersion: bool, version: nat, initialComplete: bool, establishedCerts: Option<seq<seq<bv8>>>)

  /**
   The fields of SSL_HANDSHAKE and SSL that the client's states use; inbox holds the messages
   that have arrived and not been consumed.
   */
  datatype Handshake = Handshake(
    state: State,
    connection: Connection,
    session: Option<Session>,
    offered: Option<Session>,
    sessionId: seq<bv8>,
    earlyDataOffered: bool,
    certs: seq<seq<bv8>>,
    newMaster: nat,
    cipher: Option<Cipher>,
    extensions: Extensions,
    certRequest: bool,
    hasCertificate: bool,
    transcript: seq<bv8>,
    inbox: seq<Message>,
    pendingKeyOp: bool,
    canEarlyWrite: bool,
    inFalseStart: bool)
  {
    /** The master secret of SSL_get_session. */
    function Master(): nat {
      if session.Some? then session.value.master else newMaster
    }

    predicate CertificateAuth() {
      cipher.Some? && cipher.value.CertificateAuth()
    }
  }

  /**
   A step fails, returns at a point where it is to be repeated, or moves on.  Either way the
   handshake is returned as it stands there, with all that the step has done to it.
   */
  datatype Outcome =
    | Failed
    | Paused(hs: Handshake, wait: Wait, events: seq<Event>)
    | Advanced(hs: Handshake, wait: Wait, events: seq<Event>)

  /** What an event should add to the transcript: a HelloVerifyRequest is never part of it. */
  function Hashed(t: seq<bv8>, e: Event): seq<bv8> {
    match e
    case TranscriptReset => []
    case Sent(_, bytes) => t + bytes
    case Consumed(m) => if m.HelloVerifyRequest? then t else t + m.raw
    case _ => t
  }

  /** The messages of a log after those already hashed, back to the last reset. */
  function HashAll(t: seq<bv8>, log: seq<Event>): seq<bv8>
    decreases |log|
  {
    if log == [] then t else HashAll(Hashed(t, log[0]), log[1..])
  }

  lemma {:induction false} HashAllAppend(t: seq<bv8>, a: seq<Event>, b: seq<Event>)
    ensures HashAll(t, a + b) == HashAll(HashAll(t, a), b)
    decreases |a|
  {
    if a == [] {
      assert a + b == b;
    } else {
      assert (a + b)[1..] == a[1..] + b;
      HashAllAppend(Hashed(t, a[0]), a[1..], b);
    }
  }

  lemma HashOne(t: seq<bv8>, e: Event)
    ensures HashAll(t, [e]) == Hashed(t, e)
  {
    assert [e][1..] == [];
  }

  lemma HashReset(t: seq<bv8>, a: seq<Event>, b: seq<Event>)
    ensures HashAll(t, a + [TranscriptReset] + b) == HashAll([], b)
  {
    HashAllAppend(t, a + [TranscriptReset], b);
    HashAllAppend(t, a, [TranscriptReset]);
    HashOne(HashAll(t, a), TranscriptReset);
  }

  /** An event that leaves the transcript alone. */
  predicate Silent(e: Event) {
    !e.Sent? && !e.Consumed? && !e.TranscriptReset?
  }

  lemma {:induction false} HashSilent(t: seq<bv8>, events: seq<Event>)
    requires forall e | e in events :: Silent(e)
    ensures HashAll(t, events) == t
    decreases |events|
  {
    if events != [] {
      assert Silent(events[0]);
      HashSilent(t, events[1..]);
    }
  }

  /** The messages of a log that were taken off the queue. */
  function Taken(log: seq<Event>): seq<Message>
    decreases |log|
  {
    if log == [] then []
    else (if log[0].Consumed? then [log[0].message] else []) + Taken(log[1..])
  }

  lemma {:induction false} TakenAppend(a: seq<Event>, b: seq<Event>)
    ensures Taken(a + b) == Taken(a) + Taken(b)
    decreases |a|
  {
    if a == [] {
      assert a + b == b;
    } else {
      assert (a + b)[1..] == a[1..] + b;
      TakenAppend(a[1..], b);
      var first := if a[0].Consumed? then [a[0].message] else [];
      assert first + Taken(a[1..]) + Taken(b) == first + (Taken(a[1..]) + Taken(b));
    }
  }

  lemma {:induction false} TakenNone(events: seq<Event>)
    requires forall e | e in events :: !e.Consumed?
    ensures Taken(events) == []
    decreases |events|
  {
    if events != [] {
      assert !events[0].Consumed?;
      TakenNone(events[1..]);
    }
  }

  lemma TakenOne(m: Message)
    ensures Taken([Consumed(m)]) == [m]
  {
    assert [Consumed(m)][1..] == [];
  }

  /** How far a state is from the end; resumption visits the last states in another order. */
  function Rank(state: State, resumed: bool): int {
    if resumed && SEND_CLIENT_FINISHED <= state <= FINISH_FLIGHT then 17 - state
    else if resumed && READ_SESSION_TICKET <= state <= READ_SERVER_FINISHED then 22 - state
    else 20 - state
  }

  function RankOf(hs: Handshake): int {
    Rank(hs.state, hs.session.Some?)
  }

  /** What was hashed is what the step sent and consumed. */
  predicate Hashes(t: seq<bv8>, o: Outcome)
    requires o.Advanced?
  {
    o.hs.transcript == HashAll(t, o.events)
  }

  /** What was consumed is what has left the queue. */
  predicate Drains(inbox: seq<Message>, o: Outcome)
    requires o.Advanced?
  {
    inbox == Taken(o.events) + o.hs.inbox
  }

  /** An event that may come anywhere. */
  predicate Free(e: Event) {
    !e.ReadKeysOn? && !e.ServerFinishedMatched? && !e.TranscriptReset? && !(e.Sent? && e.kind.FinishedOut?)
  }

  predicate AllFree(events: seq<Event>) {
    forall e | e in events :: Free(e)
  }

  predicate IsCookie(e: Event) {
    e.Consumed? && e.message.HelloVerifyRequest?
  }

  predicate NoCookie(events: seq<Event>) {
    forall e | e in events :: !IsCookie(e)
  }

  predicate IsHello(e: Event) {
    e.Consumed? && e.message.ServerHello?
  }

  predicate NoHello(events: seq<Event>) {
    forall e | e in events :: !IsHello(e)
  }

  /** The states whose events depend on what came before. */
  predicate OrderMatters(state: State) {
    || state == READ_HELLO_VERIFY_REQUEST || state == SEND_CLIENT_FINISHED
    || state == PROCESS_CHANGE_CIPHER_SPEC || state == READ_SERVER_FINISHED
  }

  /**
   A step that moves on comes closer to the end, hashes exactly the messages it sends and
   consumes, and consumes them from the front of the queue; what is offered is decided at the
   start, and only certain states say certain things.
   */
  predicate Advances(from: State, hs: Handshake, o: Outcome) {
    o.Advanced? ==>
      && 0 <= RankOf(o.hs) < Rank(from, hs.session.Some?)
      && Hashes(hs.transcript, o) && Drains(hs.inbox, o)
      && (from != READ_HELLO_VERIFY_REQUEST ==> NoCookie(o.events))
      && (from != READ_SERVER_HELLO ==> NoHello(o.events))
      && (!OrderMatters(from) ==> AllFree(o.events))
      && (from != START_CONNECT ==> o.hs.offered == hs.offered)
      && (from != READ_SERVER_HELLO && from != READ_SESSION_TICKET ==> o.hs.extensions == hs.extensions)
      && (from >= READ_SERVER_CERTIFICATE ==> o.hs.session.Some? == hs.session.Some?)
  }

  /**
   A step that returns at a retry point has done nothing that cannot be repeated: the state,
   the transcript, both queues and the keys are as before, and nothing was said.  Only a
   private key operation remembers that it has begun.
   */
  predicate Rests(hs: Handshake, o: Outcome) {
    o.Paused? ==>
      && o.events == []
      && o.hs == hs.(pendingKeyOp := o.hs.pendingKeyOp)
      && (o.hs.pendingKeyOp != hs.pendingKeyOp ==> o.wait.PrivateKeyOperation?)
      && !o.wait.ReadChangeCipherSpec? && !o.wait.Error? && !o.wait.Ok?
  }

  /** All but the state, the transcript and the queue is as before. */
  predicate Kept(hs: Handshake, now: Handshake) {
    && now.session == hs.session && now.offered == hs.offered && now.cipher == hs.cipher
    && now.connection == hs.connection && now.extensions == hs.extensions
    && now.certs == hs.certs && now.newMaster == hs.newMaster
    && now.earlyDataOffered == hs.earlyDataOffered && now.certRequest == hs.certRequest
    && now.hasCertificate == hs.hasCertificate && now.inFalseStart == hs.inFalseStart
    && now.sessionId == hs.sessionId && now.canEarlyWrite == hs.canEarlyWrite && now.pendingKeyOp == hs.pendingKeyOp
  }

  // What the states do

  /** ssl_hash_message */
  function HashMessage(hs: Handshake, m: Message): (now: Handshake)
    ensures now.transcript == hs.transcript + m.raw && now.inbox == hs.inbox
    ensures now.state == hs.state && Kept(hs, now)
  {
    hs.(transcript := hs.transcript + m.raw)
  }

  /** next_message */
  function NextMessage(hs: Handshake): (now: Handshake)
    requires hs.inbox != []
    ensures now.inbox == hs.inbox[1..] && now.transcript == hs.transcript
    ensures now.state == hs.state && Kept(hs, now)
  {
    hs.(inbox := hs.inbox[1..])
  }

  /** add_message: a message joins the flight, and the transcript. */
  function AddMessage(hs: Handshake, bytes: seq<bv8>): (now: Handshake)
    ensures now.transcript == hs.transcript + bytes && now.inbox == hs.inbox
    ensures now.state == hs.state && Kept(hs, now)
  {
    hs.(transcript := hs.transcript + bytes)
  }

  /** On to the next state. */
  function Leaves(hs: Handshake, state: State, wait: Wait, events: seq<Event>): (o: Outcome)
    ensures o.Advanced? && o.wait == wait && o.events == events
    ensures o.hs.state == state && o.hs.transcript == hs.transcript && o.hs.inbox == hs.inbox && Kept(hs, o.hs)
  {
    Advanced(hs.(state := state), wait, events)
  }

  /** On to the next state without touching messages. */
  function Goes(hs: Handshake, state: State, wait: Wait, events: seq<Event>): (o: Outcome)
    requires forall e | e in events :: Silent(e)
    ensures o.Advanced? && o.wait == wait && o.events == events && Hashes(hs.transcript, o) && Drains(hs.inbox, o)
    ensures o.hs.state == state && o.hs.transcript == hs.transcript && o.hs.inbox == hs.inbox && Kept(hs, o.hs)
  {
    HashSilent(hs.transcript, events);
    TakenNone(events);
    Leaves(hs, state, wait, events)
  }

  /** On to the next state with one message in the flight. */
  function Sends(hs: Handshake, kind: Outgoing, bytes: seq<bv8>, state: State, wait: Wait): (o: Outcome)
    ensures o.Advanced? && o.wait == wait && o.events == [Sent(kind, bytes)]
    ensures Hashes(hs.transcript, o) && Drains(hs.inbox, o)
    ensures o.hs.state == state && Kept(hs, o.hs)
  {
    HashOne(hs.transcript, Sent(kind, bytes));
    TakenNone([Sent(kind, bytes)]);
    Leaves(AddMessage(hs, bytes), state, wait, [Sent(kind, bytes)])
  }

  /** A message that was hashed once and taken once leaves transcript and queue in agreement with the log. */
  lemma OneMessageRead(before: Handshake, events: seq<Event>, m: Message, o: Outcome)
    requires before.inbox != [] && m == before.inbox[0] && !m.HelloVerifyRequest?
    requires forall e | e in events :: Silent(e)
    requires o.Advanced? && o.events == events + [Consumed(m)]
    requires o.hs.transcript == before.transcript + m.raw && o.hs.inbox == before.inbox[1..]
    ensures Hashes(before.transcript, o) && Drains(before.inbox, o)
  {
    HashSilent(before.transcript, events);
    HashAllAppend(before.transcript, events, [Consumed(m)]);
    HashOne(before.transcript, Consumed(m));
    TakenNone(events);
    TakenAppend(events, [Consumed(m)]);
    TakenOne(m);
  }

  /** Two steps in one: what follows a step that agrees with the log agrees with the longer log. */
  lemma BothAgree(t: seq<bv8>, inbox: seq<Message>, a: Outcome, b: Outcome, o: Outcome)
    requires a.Advanced? && Hashes(t, a) && Drains(inbox, a)
    requires b.Advanced? && Hashes(a.hs.transcript, b) && Drains(a.hs.inbox, b)
    requires o.Advanced? && o.events == a.events + b.events
    requires o.hs.transcript == b.hs.transcript && o.hs.inbox == b.hs.inbox
    ensures Hashes(t, o) && Drains(inbox, o)
  {
    HashAllAppend(t, a.events, b.events);
    TakenAppend(a.events, b.events);
  }

  /** The session that is offered: the configured one, unless it has expired or is not allowed. */
  function OfferedSession(hs: Handshake, a: Answers): Option<Session> {
    if hs.session.Some? && a.sessionUsable then hs.session else None
  }

  function OfferedId(cfg: Config, hs: Handshake, session: Option<Session>, a: Answers): seq<bv8> {
    if session.Some? && !hs.connection.initialComplete && session.value.id != [] then session.value.id
    else if cfg.maxVersion >= TLS1_3 then a.freshSessionId
    else hs.sessionId
  }

  /** do_start_connect */
  function DoStartConnect(cfg: Config, hs: Handshake, a: Answers): (o: Outcome)
    ensures Advances(START_CONNECT, hs, o) && Rests(hs, o)
  {
    hide Hashes, Drains, Goes, Sends, OfferedSession, OfferedId;
    if !a.fine then Failed
    else
      var session := OfferedSession(hs, a);
      Sends(hs.(session := session, offered := session, sessionId := OfferedId(cfg, hs, session, a),
                earlyDataOffered := a.offerEarlyData),
            ClientHelloOut, a.out, ENTER_EARLY_DATA, Flush)
  }

  /** do_enter_early_data */
  function DoEnterEarlyData(cfg: Config, hs: Handshake, a: Answers): (o: Outcome)
    ensures Advances(ENTER_EARLY_DATA, hs, o) && Rests(hs, o)
  {
    hide Hashes, Drains, Goes, Sends;
    if cfg.dtls then Goes(hs, READ_HELLO_VERIFY_REQUEST, Ok, [])
    else if !hs.earlyDataOffered then Goes(hs, READ_SERVER_HELLO, Ok, [])
    else if !a.fine then Failed
    else Goes(hs.(canEarlyWrite := true), READ_SERVER_HELLO, EarlyReturn, [SentChangeCipherSpec, WriteKeysOn])
  }

  lemma CookieHashed(hs: Handshake, m: Message, bytes: seq<bv8>, o: Outcome)
    requires hs.inbox != [] && m == hs.inbox[0] && m.HelloVerifyRequest?
    requires o.Advanced? && o.events == [Consumed(m), TranscriptReset, Sent(ClientHelloOut, bytes)]
    requires o.hs.transcript == bytes && o.hs.inbox == hs.inbox[1..]
    ensures Hashes(hs.transcript, o) && Drains(hs.inbox, o)
  {
    hide Taken, HashAll;
    var rest := [Sent(ClientHelloOut, bytes)];
    HashReset(hs.transcript, [Consumed(m)], rest);
    HashOne([], rest[0]);
    assert o.events == [Consumed(m)] + [TranscriptReset] + rest;
    assert o.events == [Consumed(m)] + ([TranscriptReset] + rest);
    TakenAppend([Consumed(m)], [TranscriptReset] + rest);
    TakenOne(m);
    TakenNone([TranscriptReset] + rest);
  }

  /** do_read_hello_verify_request: DTLS resets the handshake buffer after it and starts over. */
  function DoReadHelloVerifyRequest(hs: Handshake, a: Answers): (o: Outcome)
    ensures Advances(READ_HELLO_VERIFY_REQUEST, hs, o) && Rests(hs, o)
  {
    hide Hashes, Drains, Leaves, Goes, Sends, AddMessage, NextMessage;
    if hs.inbox == [] then Paused(hs, ReadMessage, [])
    else
      var m := hs.inbox[0];
      if !m.HelloVerifyRequest? then Goes(hs, READ_SERVER_HELLO, Ok, [])
      else if !a.fine then Failed
      else
        var sent := AddMessage(NextMessage(hs).(transcript := []), a.out);
        var o := Leaves(sent, READ_SERVER_HELLO, Flush, [Consumed(m), TranscriptReset, Sent(ClientHelloOut, a.out)]);
        CookieHashed(hs, m, a.out, o);
        o
  }

  /** The session that the server resumes, if it does. */
  function Resumed(hs: Handshake, m: Message): Option<Session>
    requires m.ServerHello?
  {
    if !hs.connection.initialComplete && hs.session.Some? && hs.session.value.id != [] && m.sessionId == hs.session.value.id
    then hs.session else None
  }

  /** The checks of a ServerHello of TLS 1.2 or below; a resumed session fixes version and cipher. */
  predicate HelloAcceptable(cfg: Config, hs: Handshake, m: Message, a: Answers)
    requires m.ServerHello?
  {
    var session := Resumed(hs, m);
    && !hs.earlyDataOffered
    && (session.None? ==> hs.sessionId == [] || m.sessionId != hs.sessionId)
    && m.cipher.Some? && cfg.allowed(m.cipher.value, m.version)
    && (session.Some? ==>
          && session.value.version == m.version && session.value.cipher == m.cipher.value
          && session.value.ems == m.extensions.ems && a.sessionContextValid)
    && m.compression == 0
  }

  /** A version is accepted if it is enabled and, on a connection that has one, the same. */
  predicate VersionAcceptable(cfg: Config, hs: Handshake, version: nat) {
    version in cfg.versions && (hs.connection.haveVersion ==> version == hs.connection.version)
  }

  /** The version of the connection is fixed. */
  function Versioned(hs: Handshake, version: nat): (n: Handshake)
    ensures n.connection == hs.connection.(haveVersion := true, version := version)
    ensures n.session == hs.session && n.transcript == hs.transcript && n.offered == hs.offered
    ensures n.inbox == hs.inbox && n.state == hs.state && n.inFalseStart == hs.inFalseStart
    ensures n.earlyDataOffered == hs.earlyDataOffered && n.certRequest == hs.certRequest
  {
    hs.(connection := hs.connection.(haveVersion := true, version := version))
  }

  function Negotiated(hs: Handshake, m: Message, session: Option<Session>): (n: Handshake)
    requires m.ServerHello?
    ensures n.session == session && n.transcript == hs.transcript && n.offered == hs.offered
    ensures n.inbox == hs.inbox && n.state == hs.state
  {
    Versioned(hs, m.version).(session := session, cipher := m.cipher, extensions := m.extensions)
  }

  /** do_read_server_hello once the version is known to be TLS 1.2 or below. */
  function ReadClassicHello(cfg: Config, hs: Handshake, m: Message, a: Answers): (o: Outcome)
    requires hs.inbox != [] && m == hs.inbox[0] && m.ServerHello?
    ensures Advances(READ_SERVER_HELLO, hs, o) && !o.Paused?
  {
    hide Hashes, Drains, Leaves, HashMessage, NextMessage, HelloAcceptable, Resumed, Negotiated;
    if !HelloAcceptable(cfg, hs, m, a) then Failed
    else
      var session := Resumed(hs, m);
      var hashed := HashMessage(Negotiated(hs, m, session), m);
      var o := Leaves(NextMessage(hashed), if session.Some? then READ_SESSION_TICKET else READ_SERVER_CERTIFICATE,
                      Ok, [Consumed(m)]);
      OneMessageRead(hs, [], m, o);
      o
  }

  /** do_read_server_hello: the TLS 1.3 machine reads the message again, so it stays in the queue. */
  function DoReadServerHello(cfg: Config, hs: Handshake, a: Answers): (o: Outcome)
    ensures Advances(READ_SERVER_HELLO, hs, o) && Rests(hs, o)
  {
    hide Hashes, Drains, Goes, Versioned, ReadClassicHello;
    if hs.inbox == [] then Paused(hs, ReadHello, [])
    else
      var m := hs.inbox[0];
      if !m.ServerHello? || !a.fine then Failed
      else if !VersionAcceptable(cfg, hs, m.version) then Failed
      else if m.version >= TLS1_3 then
        Goes(Versioned(hs, m.version), TLS13, Ok, [])
      else ReadClassicHello(cfg, hs, m, a)
  }

  /** do_tls13: the TLS 1.3 machine, which never waits for a ChangeCipherSpec, runs until it is done. */
  function DoTls13(hs: Handshake, a: Answers): (o: Outcome)
    ensures Advances(TLS13, hs, o) && Rests(hs, o)
  {
    hide Hashes, Drains, Goes;
    if a.tls13.Ok? then Goes(hs, FINISH_CLIENT_HANDSHAKE, Ok, [])
    else if a.tls13.Error? || a.tls13.ReadChangeCipherSpec? then Failed
    else Paused(hs, a.tls13, [])
  }

  /** do_read_server_certificate */
  function DoReadServerCertificate(hs: Handshake, a: Answers): (o: Outcome)
    ensures Advances(READ_SERVER_CERTIFICATE, hs, o) && Rests(hs, o)
  {
    hide Hashes, Drains, Leaves, Goes, HashMessage, NextMessage;
    if !hs.CertificateAuth() then Goes(hs, READ_CERTIFICATE_STATUS, Ok, [])
    else if hs.inbox == [] then Paused(hs, ReadMessage, [])
    else
      var m := hs.inbox[0];
      if !m.Certificate? then Failed
      else
        var hashed := HashMessage(hs, m);
        if !a.fine || m.chain == [] then Failed
        else
          var o := Leaves(NextMessage(hashed.(certs := m.chain)), READ_CERTIFICATE_STATUS, Ok, [Consumed(m)]);
          OneMessageRead(hs, [], m, o);
          o
  }

  /** do_read_certificate_status: a server may change its mind about sending it. */
  function DoReadCertificateStatus(hs: Handshake, a: Answers): (o: Outcome)
    ensures Advances(READ_CERTIFICATE_STATUS, hs, o) && Rests(hs, o)
  {
    hide Hashes, Drains, Leaves, Goes, HashMessage, NextMessage;
    if !hs.extensions.statusExpected then Goes(hs, VERIFY_SERVER_CERTIFICATE, Ok, [])
    else if hs.inbox == [] then Paused(hs, ReadMessage, [])
    else
      var m := hs.inbox[0];
      if !m.CertificateStatus? then Goes(hs, VERIFY_SERVER_CERTIFICATE, Ok, [])
      else
        var hashed := HashMessage(hs, m);
        if !a.fine then Failed
        else
          var o := Leaves(NextMessage(hashed), VERIFY_SERVER_CERTIFICATE, Ok, [Consumed(m)]);
          OneMessageRead(hs, [], m, o);
          o
  }

  /**
   ssl_verify_peer_cert: when renegotiating, the certificates must be those of the
   established session; otherwise a callback or the built-in verification decides.
   */
  function VerifyPeerCert(cfg: Config, established: Option<seq<seq<bv8>>>, certs: seq<seq<bv8>>, answer: VerifyResult)
    : VerifyResult
  {
    if established.Some? then if established.value == certs then VerifyOk else VerifyInvalid
    else if cfg.customVerify then if answer.VerifyInvalid? && cfg.verifyNone then VerifyOk else answer
    else if answer.VerifyOk? then VerifyOk else VerifyInvalid
  }

  /** do_verify_server_certificate */
  function DoVerifyServerCertificate(cfg: Config, hs: Handshake, a: Answers): (o: Outcome)
    ensures Advances(VERIFY_SERVER_CERTIFICATE, hs, o) && Rests(hs, o)
  {
    hide Hashes, Drains, Goes;
    if !hs.CertificateAuth() then Goes(hs, READ_SERVER_KEY_EXCHANGE, Ok, [])
    else match VerifyPeerCert(cfg, hs.connection.establishedCerts, hs.certs, a.verify)
      case VerifyOk => Goes(hs, READ_SERVER_KEY_EXCHANGE, Ok, [CertificateVerified(hs.certs)])
      case VerifyInvalid => Failed
      case VerifyRetry => Paused(hs, CertificateVerify, [])
  }

  /** do_read_server_key_exchange */
  function DoReadServerKeyExchange(hs: Handshake, a: Answers): (o: Outcome)
    requires hs.cipher.Some?
    ensures Advances(READ_SERVER_KEY_EXCHANGE, hs, o) && Rests(hs, o)
  {
    hide Hashes, Drains, Leaves, Goes, HashMessage, NextMessage;
    if hs.inbox == [] then Paused(hs, ReadMessage, [])
    else
      var m := hs.inbox[0];
      if !m.ServerKeyExchange? then
        if hs.cipher.value.NeedsServerKeyExchange() then Failed else Goes(hs, READ_CERTIFICATE_REQUEST, Ok, [])
      else
        var hashed := HashMessage(hs, m);
        if !a.fine || hs.cipher.value.keyExchange.RsaKey? then Failed
        else if hs.CertificateAuth() && !a.signatureOk then Failed
        else
          var checked := if hs.CertificateAuth() then [SignatureVerified] else [];
          var o := Leaves(NextMessage(hashed), READ_CERTIFICATE_REQUEST, Ok, checked + [Consumed(m)]);
          OneMessageRead(hs, checked, m, o);
          o
  }

  /** do_read_certificate_request */
  function DoReadCertificateRequest(hs: Handshake, a: Answers): (o: Outcome)
    ensures Advances(READ_CERTIFICATE_REQUEST, hs, o) && Rests(hs, o)
  {
    hide Hashes, Drains, Leaves, Goes, HashMessage, NextMessage;
    if !hs.CertificateAuth() then Goes(hs, READ_SERVER_HELLO_DONE, Ok, [])
    else if hs.inbox == [] then Paused(hs, ReadMessage, [])
    else
      var m := hs.inbox[0];
      if m.ServerHelloDone? then Goes(hs, READ_SERVER_HELLO_DONE, Ok, [])
      else if !m.CertificateRequest? then Failed
      else
        var hashed := HashMessage(hs, m);
        if !a.fine then Failed
        else
          var o := Leaves(NextMessage(hashed.(certRequest := true)), READ_SERVER_HELLO_DONE, Ok, [Consumed(m)]);
          OneMessageRead(hs, [], m, o);
          o
  }

  /** do_read_server_hello_done */
  function DoReadServerHelloDone(hs: Handshake, a: Answers): (o: Outcome)
    ensures Advances(READ_SERVER_HELLO_DONE, hs, o) && Rests(hs, o)
  {
    hide Hashes, Drains, Leaves, HashMessage, NextMessage;
    if hs.inbox == [] then Paused(hs, ReadMessage, [])
    else
      var m := hs.inbox[0];
      if !m.ServerHelloDone? then Failed
      else
        var hashed := HashMessage(hs, m);
        if !a.fine || m.body != [] then Failed
        else
          var o := Leaves(NextMessage(hashed), SEND_CLIENT_CERTIFICATE, Ok, [Consumed(m)]);
          OneMessageRead(hs, [], m, o);
          o
  }

  /** do_send_client_certificate: the callback that finds the certificate comes before everything else. */
  function DoSendClientCertificate(hs: Handshake, a: Answers): (o: Outcome)
    ensures Advances(SEND_CLIENT_CERTIFICATE, hs, o) && Rests(hs, o)
  {
    hide Hashes, Drains, Goes, Sends;
    if !hs.certRequest then Goes(hs, SEND_CLIENT_KEY_EXCHANGE, Ok, [])
    else if a.certificate.Fail? then Failed
    else if a.certificate.Retry? then Paused(hs, X509Lookup, [])
    else if !a.fine then Failed
    else if !a.hasCertificate && hs.connection.version == SSL3 then
      Goes(hs.(hasCertificate := false), SEND_CLIENT_KEY_EXCHANGE, Ok, [])
    else Sends(hs.(hasCertificate := a.hasCertificate), CertificateOut, a.out, SEND_CLIENT_KEY_EXCHANGE, Ok)
  }

  /** do_send_client_key_exchange: the message is hashed before the master secret is derived. */
  function DoSendClientKeyExchange(hs: Handshake, a: Answers): (o: Outcome)
    ensures Advances(SEND_CLIENT_KEY_EXCHANGE, hs, o) && Rests(hs, o)
  {
    hide Hashes, Drains, Goes, Sends;
    if !a.fine then Failed
    else
      var sent := Sends(hs, ClientKeyExchangeOut, a.out, SEND_CLIENT_KEY_EXCHANGE, Ok);
      var derived := Goes(sent.hs.(newMaster := a.master), SEND_CLIENT_CERTIFICATE_VERIFY, Ok, [MasterDerived(a.master)]);
      var o := Advanced(derived.hs, Ok, sent.events + derived.events);
      BothAgree(hs.transcript, hs.inbox, sent, derived, o);
      o
  }

  /** ssl_private_key_sign: a custom key can take its time, and then remembers that it has begun. */
  function KeyOperation(cfg: Config, hs: Handshake, a: Answers): Callback {
    if !cfg.customKey then if a.sign.Succeed? then Succeed else Fail
    else if hs.pendingKeyOp then a.complete
    else a.sign
  }

  function KeyOperationDone(cfg: Config, hs: Handshake, result: Callback): (now: Handshake)
    ensures now.transcript == hs.transcript && now.inbox == hs.inbox && now.state == hs.state
    ensures Kept(hs, now.(pendingKeyOp := hs.pendingKeyOp))
  {
    if cfg.customKey then hs.(pendingKeyOp := result.Retry?) else hs
  }

  /** do_send_client_certificate_verify: the message begun before the signature is dropped when the key is not ready. */
  function DoSendClientCertificateVerify(cfg: Config, hs: Handshake, a: Answers): (o: Outcome)
    ensures Advances(SEND_CLIENT_CERTIFICATE_VERIFY, hs, o) && Rests(hs, o)
  {
    hide Hashes, Drains, Goes, Sends, KeyOperation;
    if !hs.certRequest || !hs.hasCertificate then Goes(hs, SEND_CLIENT_FINISHED, Ok, [])
    else if !a.fine then Failed
    else
      var result := KeyOperation(cfg, hs, a);
      var signed := KeyOperationDone(cfg, hs, result);
      match result
      case Fail => Failed
      case Retry => Paused(signed, PrivateKeyOperation, [])
      case Succeed => Sends(signed, CertificateVerifyOut, a.out, SEND_CLIENT_FINISHED, Ok)
  }

  function MessageIf(wanted: bool, kind: Outgoing, bytes: seq<bv8>): (events: seq<Event>)
    ensures forall e | e in events :: e == Sent(kind, bytes)
  {
    if wanted then [Sent(kind, bytes)] else []
  }

  /** A message that is sent only if it was negotiated. */
  function SendsIf(hs: Handshake, wanted: bool, kind: Outgoing, bytes: seq<bv8>): (o: Outcome)
    ensures o.Advanced? && o.events == MessageIf(wanted, kind, bytes)
    ensures Hashes(hs.transcript, o) && Drains(hs.inbox, o) && o.hs.state == hs.state && Kept(hs, o.hs)
  {
    hide Hashes, Drains, Goes, Sends, Kept;
    if wanted then Sends(hs, kind, bytes, hs.state, Ok) else Goes(hs, hs.state, Ok, [])
  }

  function ClosingEvents(negotiated: Extensions, a: Answers): seq<Event> {
    [SentChangeCipherSpec, WriteKeysOn] + MessageIf(negotiated.nextProto, NextProtoOut, a.outNextProto)
    + MessageIf(negotiated.channelId, ChannelIdOut, a.outChannelId)
  }

  /** What goes out before the client's Finished: the ChangeCipherSpec and the optional messages. */
  function BeforeFinished(hs: Handshake, a: Answers): (o: Outcome)
    ensures o.Advanced? && Hashes(hs.transcript, o) && Drains(hs.inbox, o) && Kept(hs, o.hs)
    ensures o.events == ClosingEvents(hs.extensions, a)
  {
    hide Hashes, Drains, Goes, SendsIf, MessageIf;
    var keys := Goes(hs, SEND_CLIENT_FINISHED, Ok, [SentChangeCipherSpec, WriteKeysOn]);
    var next := SendsIf(keys.hs, hs.extensions.nextProto, NextProtoOut, a.outNextProto);
    var both := Advanced(next.hs, Ok, keys.events + next.events);
    BothAgree(hs.transcript, hs.inbox, keys, next, both);
    var id := SendsIf(next.hs, hs.extensions.channelId, ChannelIdOut, a.outChannelId);
    var o := Advanced(id.hs, Ok, both.events + id.events);
    BothAgree(hs.transcript, hs.inbox, both, id, o);
    o
  }

  /** do_send_client_finished: the Channel ID is resolved before anything that cannot be repeated. */
  function DoSendClientFinished(cfg: Config, hs: Handshake, a: Answers): (o: Outcome)
    ensures Advances(SEND_CLIENT_FINISHED, hs, o) && Rests(hs, o)
  {
    hide Hashes, Drains, Goes, Sends, BeforeFinished, Handshake.Master;
    if !a.fine then Failed
    else if hs.extensions.channelId && !a.channelIdKey then Paused(hs, ChannelIdLookup, [])
    else
      var before := BeforeFinished(hs, a);
      var finished := cfg.finishedMessage(cfg.finishedMac(hs.Master(), before.hs.transcript, false));
      var last := Sends(before.hs, FinishedOut, finished, FINISH_FLIGHT, Flush);
      var o := Advanced(last.hs, Flush, before.events + last.events);
      BothAgree(hs.transcript, hs.inbox, before, last, o);
      o
  }

  /** can_false_start */
  predicate CanFalseStart(cfg: Config, hs: Handshake, a: Answers) {
    && !cfg.dtls && hs.connection.version == TLS1_2
    && hs.cipher.Some? && hs.cipher.value.keyExchange.Ecdhe? && hs.cipher.value.aead
    && a.hasProtocol
  }

  /** do_finish_flight */
  function DoFinishFlight(cfg: Config, hs: Handshake, a: Answers): (o: Outcome)
    ensures Advances(FINISH_FLIGHT, hs, o) && Rests(hs, o)
  {
    hide Hashes, Drains, Goes;
    if hs.session.Some? then Goes(hs, FINISH_CLIENT_HANDSHAKE, Ok, [])
    else if !a.fine then Failed
    else if cfg.falseStart && CanFalseStart(cfg, hs, a) && !hs.connection.initialComplete then
      Goes(hs.(inFalseStart := true, canEarlyWrite := true), READ_SESSION_TICKET, EarlyReturn, [])
    else Goes(hs, READ_SESSION_TICKET, Ok, [])
  }

  /** The handshake after a ticket, which may be empty. */
  function Renewed(hs: Handshake, m: Message, a: Answers): (n: Handshake)
    requires m.NewSessionTicket?
    ensures n.state == hs.state && n.transcript == hs.transcript && n.inbox == hs.inbox
    ensures n.session.Some? == hs.session.Some?
    ensures n.session.Some? ==> n.session.value == hs.session.value.(id := n.session.value.id)
    ensures n.offered == hs.offered && n.connection == hs.connection && n.cipher == hs.cipher
    ensures n.extensions == hs.extensions.(ticketExpected := n.extensions.ticketExpected)
    ensures n.earlyDataOffered == hs.earlyDataOffered && n.certRequest == hs.certRequest
    ensures n.hasCertificate == hs.hasCertificate && n.inFalseStart == hs.inFalseStart
    ensures n.certs == hs.certs && n.newMaster == hs.newMaster
  {
    if m.ticket == [] then hs.(extensions := hs.extensions.(ticketExpected := false))
    else if hs.session.Some? then hs.(session := Some(hs.session.value.(id := a.ticketId)))
    else hs
  }

  /** do_read_session_ticket: a renewed session differs from the old one only in its ticket. */
  function DoReadSessionTicket(hs: Handshake, a: Answers): (o: Outcome)
    ensures Advances(READ_SESSION_TICKET, hs, o) && Rests(hs, o)
  {
    hide Hashes, Drains, Leaves, Goes, HashMessage, NextMessage, Renewed;
    if !hs.extensions.ticketExpected then Goes(hs, PROCESS_CHANGE_CIPHER_SPEC, ReadChangeCipherSpec, [])
    else if hs.inbox == [] then Paused(hs, ReadMessage, [])
    else
      var m := hs.inbox[0];
      if !m.NewSessionTicket? then Failed
      else
        var hashed := HashMessage(hs, m);
        if !a.fine then Failed
        else
          var o := Leaves(NextMessage(Renewed(hashed, m, a)), PROCESS_CHANGE_CIPHER_SPEC, ReadChangeCipherSpec, [Consumed(m)]);
          OneMessageRead(hs, [], m, o);
          o
  }

  /** do_process_change_cipher_spec */
  function DoProcessChangeCipherSpec(hs: Handshake, a: Answers): (o: Outcome)
    ensures Advances(PROCESS_CHANGE_CIPHER_SPEC, hs, o) && Rests(hs, o)
  {
    hide Hashes, Drains, Goes;
    if !a.fine then Failed else Goes(hs, READ_SERVER_FINISHED, Ok, [ReadKeysOn])
  }

  /** do_read_server_finished and ssl_get_finished: the MAC is computed before the message is hashed. */
  function DoReadServerFinished(cfg: Config, hs: Handshake, a: Answers): (o: Outcome)
    ensures Advances(READ_SERVER_FINISHED, hs, o) && Rests(hs, o)
  {
    hide Hashes, Drains, Leaves, HashMessage, NextMessage;
    if hs.inbox == [] then Paused(hs, ReadMessage, [])
    else
      var m := hs.inbox[0];
      if !m.Finished? then Failed
      else
        var expected := cfg.finishedMac(hs.Master(), hs.transcript, true);
        var hashed := HashMessage(hs, m);
        if !a.fine || m.verifyData != expected then Failed
        else
          var matched := [ServerFinishedMatched(hs.Master(), m.verifyData)];
          var o := Leaves(NextMessage(hashed), if hs.session.Some? then SEND_CLIENT_FINISHED else FINISH_CLIENT_HANDSHAKE,
                          Ok, matched + [Consumed(m)]);
          OneMessageRead(hs, matched, m, o);
          o
  }

  /** do_finish_client_handshake */
  function DoFinishClientHandshake(hs: Handshake, a: Answers): (o: Outcome)
    ensures Advances(FINISH_CLIENT_HANDSHAKE, hs, o) && Rests(hs, o)
  {
    hide Hashes, Drains, Goes;
    if !a.fine then Failed
    else
      var certs := if hs.session.Some? then hs.session.value.certs else hs.certs;
      Goes(hs.(connection := hs.connection.(establishedCerts := Some(certs), initialComplete := true)), DONE, Ok, [Completed])
  }

  /** One turn of the loop of ssl_client_handshake. */
  function Step(cfg: Config, hs: Handshake, a: Answers): (o: Outcome)
    ensures hs.state == DONE || (Advances(hs.state, hs, o) && Rests(hs, o))
  {
    if hs.state == START_CONNECT then DoStartConnect(cfg, hs, a)
    else if hs.state == ENTER_EARLY_DATA then DoEnterEarlyData(cfg, hs, a)
    else if hs.state == READ_HELLO_VERIFY_REQUEST then DoReadHelloVerifyRequest(hs, a)
    else if hs.state == READ_SERVER_HELLO then DoReadServerHello(cfg, hs, a)
    else if hs.state == TLS13 then DoTls13(hs, a)
    else if hs.state == READ_SERVER_CERTIFICATE then DoReadServerCertificate(hs, a)
    else if hs.state == READ_CERTIFICATE_STATUS then DoReadCertificateStatus(hs, a)
    else if hs.state == VERIFY_SERVER_CERTIFICATE then DoVerifyServerCertificate(cfg, hs, a)
    else if hs.state == READ_SERVER_KEY_EXCHANGE && hs.cipher.Some? then DoReadServerKeyExchange(hs, a)
    else if hs.state == READ_CERTIFICATE_REQUEST then DoReadCertificateRequest(hs, a)
    else if hs.state == READ_SERVER_HELLO_DONE then DoReadServerHelloDone(hs, a)
    else if hs.state == SEND_CLIENT_CERTIFICATE then DoSendClientCertificate(hs, a)
    else if hs.state == SEND_CLIENT_KEY_EXCHANGE then DoSendClientKeyExchange(hs, a)
    else if hs.state == SEND_CLIENT_CERTIFICATE_VERIFY then DoSendClientCertificateVerify(cfg, hs, a)
    else if hs.state == SEND_CLIENT_FINISHED then DoSendClientFinished(cfg, hs, a)
    else if hs.state == FINISH_FLIGHT then DoFinishFlight(cfg, hs, a)
    else if hs.state == READ_SESSION_TICKET then DoReadSessionTicket(hs, a)
    else if hs.state == PROCESS_CHANGE_CIPHER_SPEC then DoProcessChangeCipherSpec(hs, a)
    else if hs.state == READ_SERVER_FINISHED then DoReadServerFinished(cfg, hs, a)
    else if hs.state == FINISH_CLIENT_HANDSHAKE then DoFinishClientHandshake(hs, a)
    else Failed
  }
}
