/**
 When each state of the client handshake moves on, exactly, by the messages, the answers and
 what was negotiated; where it may pause, and what it leaves behind (handshake_client.cc).
 */
module HandshakeSteps {
  import opened Wrappers
  import opened ClientHandshake

  /** A message was taken off the queue; none was touched. */
  predicate TookOne(hs: Handshake, o: Outcome)
    requires o.Advanced? && hs.inbox != []
  {
    && o.hs.inbox == hs.inbox[1..] && Consumed(hs.inbox[0]) in o.events
    && o.hs.transcript == hs.transcript + hs.inbox[0].raw
  }

  predicate TookNone(hs: Handshake, o: Outcome)
    requires o.Advanced?
  {
    o.hs.inbox == hs.inbox && o.hs.transcript == hs.transcript && forall e | e in o.events :: !e.Consumed?
  }

  /** The cipher has the server authenticate itself with a certificate. */
  predicate Authenticated(hs: Handshake) {
    hs.cipher.Some? && !hs.cipher.value.pskAuth
  }

  /** do_start_connect: the configured session is offered exactly if it is usable, under its own id. */
  lemma StartConnectOffersSession(cfg: Config, hs: Handshake, a: Answers)
    ensures var o := DoStartConnect(cfg, hs, a);
            && !o.Paused? && (o.Advanced? <==> a.fine)
            && (o.Advanced? ==>
                  && o.hs.state == ENTER_EARLY_DATA && o.wait == Flush && o.events == [Sent(ClientHelloOut, a.out)]
                  && o.hs.offered == o.hs.session
                  && (o.hs.session.Some? <==> hs.session.Some? && a.sessionUsable)
                  && (o.hs.session.Some? ==> o.hs.session == hs.session)
                  && o.hs.earlyDataOffered == a.offerEarlyData
                  && o.hs.sessionId ==
                       if o.hs.session.Some? && !hs.connection.initialComplete && hs.session.value.id != [] then
                         hs.session.value.id
                       else if cfg.maxVersion >= 0x0304 then a.freshSessionId else hs.sessionId)
  {
    hide Hashes, Drains, AllFree, NoCookie, NoHello, Sends;
  }

  /** do_enter_early_data: keys are switched on only for early data, and DTLS looks for a cookie first. */
  lemma EarlyDataSwitchesKeys(cfg: Config, hs: Handshake, a: Answers)
    ensures var o := DoEnterEarlyData(cfg, hs, a);
            && !o.Paused? && (o.Failed? <==> !cfg.dtls && hs.earlyDataOffered && !a.fine)
            && (o.Advanced? ==>
                  && o.hs.state == (if cfg.dtls then READ_HELLO_VERIFY_REQUEST else READ_SERVER_HELLO)
                  && (WriteKeysOn in o.events <==> !cfg.dtls && hs.earlyDataOffered)
                  && (o.wait == EarlyReturn <==> WriteKeysOn in o.events))
  {
    hide Hashes, Drains, AllFree, NoCookie, NoHello, Goes;
  }

  /** do_read_hello_verify_request: after a cookie the transcript is just the second ClientHello. */
  lemma CookieRestartsTranscript(hs: Handshake, a: Answers)
    ensures var o := DoReadHelloVerifyRequest(hs, a);
            && (o.Paused? <==> hs.inbox == [])
            && (o.Advanced? <==> hs.inbox != [] && (hs.inbox[0].HelloVerifyRequest? ==> a.fine))
            && (o.Advanced? ==>
                  && o.hs.state == READ_SERVER_HELLO
                  && if hs.inbox[0].HelloVerifyRequest? then
                       o.hs.transcript == a.out && o.hs.inbox == hs.inbox[1..] && o.wait == Flush
                     else TookNone(hs, o) && o.wait == Ok)
  {
    hide Hashes, Drains, AllFree, NoCookie, NoHello, Leaves, Goes, AddMessage, NextMessage;
  }

  /** The server resumes the session that was offered: outside a renegotiation, it echoes the session's id. */
  predicate Echoed(hs: Handshake, m: Message)
    requires m.ServerHello?
  {
    && !hs.connection.initialComplete && hs.session.Some? && hs.session.value.id != []
    && m.sessionId == hs.session.value.id
  }

  /** What a ServerHello must say; below TLS 1.3 also about cipher, compression and session. */
  predicate HelloOk(cfg: Config, hs: Handshake, m: Message, a: Answers)
    requires m.ServerHello?
  {
    && a.fine && m.version in cfg.versions
    && (hs.connection.haveVersion ==> m.version == hs.connection.version)
    && (m.version < 0x0304 ==>
          && !hs.earlyDataOffered && m.compression == 0
          && m.cipher.Some? && cfg.allowed(m.cipher.value, m.version)
          && if Echoed(hs, m) then
               && hs.session.value.version == m.version && hs.session.value.cipher == m.cipher.value
               && hs.session.value.ems == m.extensions.ems && a.sessionContextValid
             else hs.sessionId == [] || m.sessionId != hs.sessionId)
  }

  /**
   do_read_server_hello: it moves on exactly if the version is enabled and does not change and,
   up to TLS 1.2, no early data was offered, the cipher is allowed, nothing is compressed, and
   an echoed session has this version, cipher and extended master secret; an id that was sent
   but does not belong to a session must not be echoed.
   */
  lemma ServerHelloIsChecked(cfg: Config, hs: Handshake, a: Answers)
    ensures var o := DoReadServerHello(cfg, hs, a);
            && (o.Paused? <==> hs.inbox == [])
            && (o.Advanced? <==> hs.inbox != [] && hs.inbox[0].ServerHello? && HelloOk(cfg, hs, hs.inbox[0], a))
            && (o.Advanced? ==>
                  var m := hs.inbox[0];
                  && o.hs.connection == hs.connection.(haveVersion := true, version := m.version) && o.wait == Ok
                  && if m.version >= 0x0304 then o.hs.state == TLS13 && TookNone(hs, o) else ClassicHelloTaken(hs, m, o))
  {
    hide Hashes, Drains, AllFree, NoCookie, NoHello, Leaves, Goes, HashMessage, NextMessage, Versioned, ReadClassicHello;
    if hs.inbox != [] && hs.inbox[0].ServerHello? {
      var m := hs.inbox[0];
      ClassicHelloIsChecked(cfg, hs, m, a);
      if DoReadServerHello(cfg, hs, a).Advanced? {
        VersionIsFixed(hs, m.version);
      }
    }
  }

  lemma VersionIsFixed(hs: Handshake, version: nat)
    ensures Versioned(hs, version).connection == hs.connection.(haveVersion := true, version := version)
  {
  }

  predicate ClassicHelloTaken(hs: Handshake, m: Message, o: Outcome)
    requires m.ServerHello? && hs.inbox != [] && o.Advanced?
  {
    && TookOne(hs, o) && o.hs.connection == hs.connection.(haveVersion := true, version := m.version) && o.wait == Ok
    && o.hs.cipher == m.cipher && o.hs.extensions == m.extensions && o.hs.earlyDataOffered == hs.earlyDataOffered
    && o.hs.session == (if Echoed(hs, m) then hs.session else None)
    && o.hs.state == if Echoed(hs, m) then READ_SESSION_TICKET else READ_SERVER_CERTIFICATE
  }

  lemma ClassicHelloIsChecked(cfg: Config, hs: Handshake, m: Message, a: Answers)
    requires hs.inbox != [] && m == hs.inbox[0] && m.ServerHello?
    ensures var o := ReadClassicHello(cfg, hs, m, a);
            && (a.fine && VersionAcceptable(cfg, hs, m.version) && m.version < TLS1_3 ==>
                  (o.Advanced? <==> HelloOk(cfg, hs, m, a)))
            && (o.Advanced? ==> ClassicHelloTaken(hs, m, o))
  {
    hide Hashes, Drains, AllFree, NoCookie, NoHello, Advances, Rests, Leaves, HashMessage, NextMessage;
  }

  /** do_tls13: the rest of the handshake is left to the TLS 1.3 machine until it is done. */
  lemma Tls13HandsOver(hs: Handshake, a: Answers)
    ensures var o := DoTls13(hs, a);
            && (o.Advanced? <==> a.tls13.Ok?) && (o.Failed? <==> a.tls13.Error? || a.tls13.ReadChangeCipherSpec?)
            && (o.Advanced? ==> o.hs.state == FINISH_CLIENT_HANDSHAKE && TookNone(hs, o) && o.events == [])
            && (o.Paused? ==> o.wait == a.tls13)
  {
    hide Hashes, Drains, AllFree, NoCookie, NoHello;
  }

  /** do_read_server_certificate: with a certificate cipher there must be a chain, and it is not empty. */
  lemma CertificateIsRead(hs: Handshake, a: Answers)
    ensures var o := DoReadServerCertificate(hs, a);
            && (o.Paused? <==> Authenticated(hs) && hs.inbox == [])
            && (o.Advanced? <==>
                  Authenticated(hs) ==> hs.inbox != [] && hs.inbox[0].Certificate? && a.fine && hs.inbox[0].chain != [])
            && (o.Advanced? ==>
                  && o.hs.state == READ_CERTIFICATE_STATUS && o.wait == Ok
                  && if Authenticated(hs) then o.hs.certs == hs.inbox[0].chain && TookOne(hs, o)
                     else o.hs.certs == hs.certs && TookNone(hs, o))
  {
    hide Hashes, Drains, AllFree, NoCookie, NoHello, Leaves, Goes, HashMessage, NextMessage;
  }

  /** do_read_certificate_status: the message is taken exactly if it is expected and comes. */
  lemma StatusIsOptional(hs: Handshake, a: Answers)
    ensures var o := DoReadCertificateStatus(hs, a);
            && (o.Paused? <==> hs.extensions.statusExpected && hs.inbox == [])
            && (o.Advanced? <==>
                  hs.extensions.statusExpected ==> hs.inbox != [] && (hs.inbox[0].CertificateStatus? ==> a.fine))
            && (o.Advanced? ==>
                  && o.hs.state == VERIFY_SERVER_CERTIFICATE && o.wait == Ok
                  && if hs.extensions.statusExpected && hs.inbox[0].CertificateStatus? then TookOne(hs, o) else TookNone(hs, o))
  {
    hide Hashes, Drains, AllFree, NoCookie, NoHello, Leaves, Goes, HashMessage, NextMessage;
  }

  /**
   do_verify_server_certificate: with a certificate cipher it moves on exactly if the chain is
   verified: on renegotiation if it is the one known, and otherwise if the callback or the
   verifier says so, or a callback objects where no verification is asked for.
   */
  lemma CertificateIsVerified(cfg: Config, hs: Handshake, a: Answers)
    ensures var o, established := DoVerifyServerCertificate(cfg, hs, a), hs.connection.establishedCerts;
            && (o.Paused? <==> Authenticated(hs) && established.None? && cfg.customVerify && a.verify.VerifyRetry?)
            && (o.Advanced? <==>
                  Authenticated(hs) ==>
                    if established.Some? then established.value == hs.certs
                    else a.verify.VerifyOk? || (cfg.customVerify && cfg.verifyNone && a.verify.VerifyInvalid?))
            && (o.Advanced? ==>
                  && o.hs.state == READ_SERVER_KEY_EXCHANGE && o.wait == Ok && TookNone(hs, o)
                  && o.events == if Authenticated(hs) then [CertificateVerified(hs.certs)] else [])
  {
    hide Hashes, Drains, AllFree, NoCookie, NoHello, Goes;
  }

  /**
   do_read_server_key_exchange: ephemeral ciphers cannot do without it, RSA cannot have it, and
   with a certificate cipher its signature is checked; any other message is left alone.
   */
  lemma KeyExchangeIsSigned(hs: Handshake, a: Answers)
    requires hs.cipher.Some?
    ensures var o, cipher := DoReadServerKeyExchange(hs, a), hs.cipher.value;
            && (o.Paused? <==> hs.inbox == [])
            && (o.Advanced? <==>
                  && hs.inbox != []
                  && if hs.inbox[0].ServerKeyExchange? then
                       a.fine && !cipher.keyExchange.RsaKey? && (!cipher.pskAuth ==> a.signatureOk)
                     else !cipher.keyExchange.Ecdhe?)
            && (o.Advanced? ==>
                  && o.hs.state == READ_CERTIFICATE_REQUEST && o.wait == Ok
                  && if hs.inbox[0].ServerKeyExchange? then
                       TookOne(hs, o) && (SignatureVerified in o.events <==> !cipher.pskAuth)
                     else TookNone(hs, o) && o.events == [])
  {
    hide Hashes, Drains, AllFree, NoCookie, NoHello, Leaves, Goes, HashMessage, NextMessage;
  }

  /** do_read_certificate_request: only a certificate cipher can have one, and ServerHelloDone is left alone. */
  lemma RequestIsOptional(hs: Handshake, a: Answers)
    ensures var o := DoReadCertificateRequest(hs, a);
            && (o.Paused? <==> Authenticated(hs) && hs.inbox == [])
            && (o.Advanced? <==>
                  Authenticated(hs) ==>
                    hs.inbox != [] && (hs.inbox[0].ServerHelloDone? || (hs.inbox[0].CertificateRequest? && a.fine)))
            && (o.Advanced? ==>
                  && o.hs.state == READ_SERVER_HELLO_DONE && o.wait == Ok
                  && if Authenticated(hs) && hs.inbox[0].CertificateRequest? then TookOne(hs, o) && o.hs.certRequest
                     else TookNone(hs, o) && o.hs.certRequest == hs.certRequest)
  {
    hide Hashes, Drains, AllFree, NoCookie, NoHello, Leaves, Goes, HashMessage, NextMessage;
  }

  /** do_read_server_hello_done: nothing else is accepted, and it must be empty. */
  lemma HelloDoneIsEmpty(hs: Handshake, a: Answers)
    ensures var o := DoReadServerHelloDone(hs, a);
            && (o.Paused? <==> hs.inbox == [])
            && (o.Advanced? <==> hs.inbox != [] && hs.inbox[0].ServerHelloDone? && a.fine && hs.inbox[0].body == [])
            && (o.Advanced? ==> o.hs.state == SEND_CLIENT_CERTIFICATE && o.wait == Ok && TookOne(hs, o))
  {
    hide Hashes, Drains, AllFree, NoCookie, NoHello, Leaves, HashMessage, NextMessage;
  }

  /**
   do_send_client_certificate: a Certificate is sent exactly if one was requested, unless there
   is none and the version is SSL 3.0; the callback is asked before anything is done.
   */
  lemma CertificateIsSentOnRequest(hs: Handshake, a: Answers)
    ensures var o := DoSendClientCertificate(hs, a);
            && (o.Paused? <==> hs.certRequest && a.certificate.Retry?)
            && (o.Advanced? <==> hs.certRequest ==> a.certificate.Succeed? && a.fine)
            && (o.Advanced? ==>
                  && o.hs.state == SEND_CLIENT_KEY_EXCHANGE && o.wait == Ok
                  && o.hs.hasCertificate == (if hs.certRequest then a.hasCertificate else hs.hasCertificate)
                  && o.events == if hs.certRequest && (a.hasCertificate || hs.connection.version != SSL3)
                              then [Sent(CertificateOut, a.out)] else [])
  {
    hide Hashes, Drains, AllFree, NoCookie, NoHello, Goes, Sends;
  }

  /** do_send_client_key_exchange: the message is in the transcript before the master secret is derived. */
  lemma KeyExchangeIsHashedFirst(hs: Handshake, a: Answers)
    ensures var o := DoSendClientKeyExchange(hs, a);
            && !o.Paused? && (o.Advanced? <==> a.fine)
            && (o.Advanced? ==>
                  && o.events == [Sent(ClientKeyExchangeOut, a.out), MasterDerived(a.master)]
                  && o.hs.state == SEND_CLIENT_CERTIFICATE_VERIFY && o.wait == Ok
                  && o.hs.transcript == hs.transcript + a.out && o.hs.newMaster == a.master)
  {
    hide Drains, AllFree, NoCookie, NoHello;
  }

  /**
   do_send_client_certificate_verify: sent exactly if a certificate was asked for and there is
   one; a key that is not ready leaves only the note that it has begun, which success clears.
   */
  lemma PossessionIsProved(cfg: Config, hs: Handshake, a: Answers)
    ensures var o, wanted := DoSendClientCertificateVerify(cfg, hs, a), hs.certRequest && hs.hasCertificate;
            var answer := if cfg.customKey && hs.pendingKeyOp then a.complete else a.sign;
            && (o.Paused? <==> wanted && a.fine && cfg.customKey && answer.Retry?)
            && (o.Paused? ==> o.hs == hs.(pendingKeyOp := true))
            && (o.Advanced? <==> wanted ==> a.fine && answer.Succeed?)
            && (o.Advanced? ==>
                  && o.hs.state == SEND_CLIENT_FINISHED && o.wait == Ok
                  && o.events == (if wanted then [Sent(CertificateVerifyOut, a.out)] else [])
                  && (wanted && cfg.customKey ==> !o.hs.pendingKeyOp))
  {
    hide Hashes, Drains, AllFree, NoCookie, NoHello;
  }

  /**
   do_send_client_finished: the Finished covers all that was hashed before it, the optional
   messages included, and follows the switch of the write keys; only a missing Channel ID key
   can hold it up, before any of this.
   */
  lemma FinishedCoversAll(cfg: Config, hs: Handshake, a: Answers)
    ensures var o, closing := DoSendClientFinished(cfg, hs, a), ClosingEvents(hs.extensions, a);
            && (o.Paused? <==> a.fine && hs.extensions.channelId && !a.channelIdKey)
            && (o.Advanced? <==> a.fine && (hs.extensions.channelId ==> a.channelIdKey))
            && (o.Advanced? ==>
                  && o.wait == Flush && o.hs.state == FINISH_FLIGHT && WriteKeysOn in closing
                  && o.events == closing + [Sent(FinishedOut, cfg.finishedMessage(
                       cfg.finishedMac(hs.Master(), HashAll(hs.transcript, closing), false)))])
  {
    hide Drains, AllFree, NoCookie, NoHello, HashAll, BeforeFinished, Sends, MessageIf;
    assert [SentChangeCipherSpec, WriteKeysOn][1] in ClosingEvents(hs.extensions, a);
  }

  /**
   do_finish_flight: a resumed handshake is finished.  A full one returns early exactly if False
   Start is on, the version is TLS 1.2 over TLS, the cipher is an ephemeral AEAD, a protocol was
   negotiated, and this is no renegotiation.
   */
  lemma FalseStartIsRare(cfg: Config, hs: Handshake, a: Answers)
    ensures var o := DoFinishFlight(cfg, hs, a);
            && !o.Paused? && (o.Advanced? <==> hs.session.Some? || a.fine)
            && (o.Advanced? ==>
                  && TookNone(hs, o) && o.events == [] && (o.wait == EarlyReturn || o.wait == Ok)
                  && o.hs.state == (if hs.session.Some? then FINISH_CLIENT_HANDSHAKE else READ_SESSION_TICKET)
                  && (o.wait == EarlyReturn <==>
                        && hs.session.None? && cfg.falseStart && !cfg.dtls && hs.connection.version == 0x0303
                        && hs.cipher.Some? && hs.cipher.value.keyExchange.Ecdhe? && hs.cipher.value.aead
                        && a.hasProtocol && !hs.connection.initialComplete)
                  && o.hs.inFalseStart == (hs.inFalseStart || o.wait == EarlyReturn))
  {
    hide Hashes, Drains, AllFree, NoCookie, NoHello, Goes;
  }

  /** do_read_session_ticket: taken exactly if expected, and a renewed session keeps all but its id. */
  lemma TicketIsReadIfExpected(hs: Handshake, a: Answers)
    ensures var o := DoReadSessionTicket(hs, a);
            && (o.Paused? <==> hs.extensions.ticketExpected && hs.inbox == [])
            && (o.Advanced? <==>
                  hs.extensions.ticketExpected ==> hs.inbox != [] && hs.inbox[0].NewSessionTicket? && a.fine)
            && (o.Advanced? ==>
                  && o.hs.state == PROCESS_CHANGE_CIPHER_SPEC && o.wait == ReadChangeCipherSpec
                  && (if hs.extensions.ticketExpected then TookOne(hs, o) else TookNone(hs, o) && o.hs.session == hs.session)
                  && (hs.extensions.ticketExpected ==>
                        if hs.session.Some? && hs.inbox[0].ticket != [] then
                          o.hs.session == Some(hs.session.value.(id := a.ticketId))
                        else o.hs.session == hs.session))
  {
    hide Hashes, Drains, AllFree, NoCookie, NoHello, Leaves, Goes, HashMessage, NextMessage;
  }

  /** do_process_change_cipher_spec: the read keys change, or the handshake fails. */
  lemma ReadKeysChange(hs: Handshake, a: Answers)
    ensures var o := DoProcessChangeCipherSpec(hs, a);
            && !o.Paused? && (o.Advanced? <==> a.fine)
            && (o.Advanced? ==> o.hs.state == READ_SERVER_FINISHED && o.wait == Ok && o.events == [ReadKeysOn])
  {
    hide Hashes, Drains, AllFree, NoCookie, NoHello, Goes;
  }

  /** do_read_server_finished: it moves on exactly if the message is the MAC of the transcript before it. */
  lemma FinishedIsMatched(cfg: Config, hs: Handshake, a: Answers)
    ensures var o := DoReadServerFinished(cfg, hs, a);
            && (o.Paused? <==> hs.inbox == [])
            && (o.Advanced? <==>
                  && hs.inbox != [] && hs.inbox[0].Finished? && a.fine
                  && hs.inbox[0].verifyData == cfg.finishedMac(hs.Master(), hs.transcript, true))
            && (o.Advanced? ==>
                  && TookOne(hs, o) && o.wait == Ok
                  && o.hs.state == if hs.session.Some? then SEND_CLIENT_FINISHED else FINISH_CLIENT_HANDSHAKE)
  {
    hide Hashes, Drains, AllFree, NoCookie, NoHello, Leaves, HashMessage, NextMessage;
  }

  /** do_finish_client_handshake: the certificates that a renegotiation will be compared with are recorded. */
  lemma CertificatesAreRecorded(hs: Handshake, a: Answers)
    ensures var o := DoFinishClientHandshake(hs, a);
            && !o.Paused? && (o.Advanced? <==> a.fine)
            && (o.Advanced? ==>
                  && o.hs.state == DONE && o.wait == Ok && o.events == [Completed] && o.hs.connection.initialComplete
                  && o.hs.connection.establishedCerts == Some(if hs.session.Some? then hs.session.value.certs else hs.certs))
  {
    hide Hashes, Drains, AllFree, NoCookie, NoHello, Goes;
  }
}
