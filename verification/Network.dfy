/**
 The whole way of a flight: the records of its datagrams go through the record layer, in any
 order, repeated or lost, past the replay window and the change of epochs, to the messages
 that the handshake asks for.  The receiver reads one datagram at a time, record by record.
 */
module Network {
  import opened Bits
  import opened Wrappers
  import opened Wire
  import opened ReplayWindow
  import opened RecordLayer
  import opened FlightPlan
  import opened FlightSender
  import opened Delivery
  import opened Datagrams
  import R = Reassembly
  import E = EndToEnd

  /**
   The two epochs of a flight, as sender and receiver have keys for them: the version of all
   its records, and the one the receiver goes by before it has keys.
   */
  datatype Channel = Channel(epoch: nat, version: nat, plainVersion: nat, sealOld: SealFn, openOld: SealFn, sealNew: SealFn,
                             openNew: SealFn) {
    function Seal(encrypted: bool): SealFn {
      if encrypted then sealNew else sealOld
    }

    function Open(encrypted: bool): SealFn {
      if encrypted then openNew else openOld
    }

    function Epoch(encrypted: bool): nat {
      if encrypted then epoch + 1 else epoch
    }

    /** How the receiver reads, without keys and with them. */
    function Reads(keyed: bool): ReadState {
      ReadState(Epoch(keyed), !keyed, if keyed then version else plainVersion, false)
    }

    ghost predicate Valid() {
      && epoch + 1 < 0x10000 && version < 0x10000 && version / 256 == 0xfe
      && Inverse(sealOld, openOld) && Inverse(sealNew, openNew)
    }
  }

  /** What one side seals, the other side opens. */
  ghost predicate Inverse(seal: SealFn, open: SealFn) {
    forall k: byte, v: nat, s: seq<byte>, p: seq<byte> ::
      seal(k, v, s, p).Some? && |p| <= MAX_PLAIN_LENGTH ==>
        |seal(k, v, s, p).value| <= MAX_ENCRYPTED_LENGTH && open(k, v, s, seal(k, v, s, p).value) == Some(p)
  }

  const APPLICATION_DATA: byte := 23

  // What is on the way

  /** The record brings this to the receiver: a ChangeCipherSpec, or one fragment. */
  ghost predicate Brings(r: Sealed, encrypted: bool, a: E.Arrival) {
    match a
    case Ccs => !encrypted && r.kind == CHANGE_CIPHER_SPEC && r.plaintext == [1]
    case Packet(e, fragments) =>
      e == encrypted && |fragments| == 1 && r.kind == HANDSHAKE && r.plaintext == fragments[0].Bytes()
    case _ => false
  }

  ghost predicate SealedIn(ch: Channel, r: Sealed, encrypted: bool) {
    && r.epoch == ch.Epoch(encrypted) && |r.plaintext| <= MAX_PLAIN_LENGTH
    && SealedBy(ch.Seal(encrypted), ch.version, r)
  }

  /** A record of the flight, in one of the two epochs. */
  ghost predicate Travels(ch: Channel, flight: E.Flight, maxLen: nat, r: Sealed) {
    exists encrypted, a :: SealedIn(ch, r, encrypted) && Brings(r, encrypted, a) && E.AllAuthentic(flight, maxLen, [a])
  }

  ghost predicate AllTravel(ch: Channel, flight: E.Flight, maxLen: nat, rs: seq<Sealed>) {
    forall r | r in rs :: Travels(ch, flight, maxLen, r)
  }

  /** The writer has the keys of the channel. */
  ghost predicate WritesOn(ch: Channel, w: Writer) {
    && w.aead.version == ch.version
    && if w.epoch == ch.epoch then w.aead.seal == ch.sealOld
       else w.epoch == ch.epoch + 1 && w.lastAead.seal == ch.sealOld && w.aead.seal == ch.sealNew
  }

  lemma RecordTravels(ch: Channel, flight: E.Flight, maxLen: nat, outgoing: seq<Outgoing>, c: Cursor, w: Writer, room: nat)
    requires Queues(outgoing, flight, ch.epoch) && WellFormedFlight(outgoing) && CursorOk(outgoing, c)
    requires c.written < |outgoing| && WritesOn(ch, w) && AttemptAt(outgoing, c, w, room).Made?
    requires w.aead.Valid() && w.lastAead.Valid() && room <= RECORD_HEADER_LENGTH + MAX_PLAIN_LENGTH
    requires forall m | m in flight.msgs :: |m.body| <= maxLen
    ensures Travels(ch, flight, maxLen, AttemptAt(outgoing, c, w, room).record)
  {
    hide Outgoing.WellFormed, Writer.Encrypts, FragmentOf, Next;
    AttemptAdvances(outgoing, c, w, room);
    AttemptUnfolds(outgoing, c, w, room);
    var attempt := AttemptAt(outgoing, c, w, room);
    var p, r := attempt.piece, attempt.record;
    PieceLength(outgoing, c, w.AeadFor(UsesPrevious(w, outgoing[c.written]).value), room);
    PieceIsAuthentic(outgoing, flight, ch.epoch, c, p);
    TransmissionIsAuthentic(outgoing, flight, ch.epoch, maxLen, p);
    assert QueuedAt(outgoing, flight, ch.epoch, p.index);
    var encrypted := p.index > flight.plain;
    assert SealedIn(ch, r, encrypted);
    assert Brings(r, encrypted, ArrivalOf(outgoing, flight, p));
  }

  lemma NoneTravel(ch: Channel, flight: E.Flight, maxLen: nat)
    ensures AllTravel(ch, flight, maxLen, [])
  {
  }

  /** Every datagram that the sender fills holds records of the flight. */
  lemma PacketTravels(ch: Channel, flight: E.Flight, maxLen: nat, outgoing: seq<Outgoing>, c: Cursor, w: Writer, room: nat)
    requires Queues(outgoing, flight, ch.epoch) && WellFormedFlight(outgoing) && CursorOk(outgoing, c)
    requires WritesOn(ch, w) && w.aead.Valid() && w.lastAead.Valid() && room <= RECORD_HEADER_LENGTH + MAX_PLAIN_LENGTH
    requires forall m | m in flight.msgs :: |m.body| <= maxLen
    ensures AllTravel(ch, flight, maxLen, PacketAt(outgoing, c, w, room).records)
  {
    hide WellFormedFlight, CursorOk, Travels, AttemptAt, PacketAt, Aead.Valid, Queues;
    PacketIsAttempted(outgoing, c, w, room);
    forall r | r in PacketAt(outgoing, c, w, room).records
      ensures Travels(ch, flight, maxLen, r)
    {
      assert Attempted(outgoing, w, room, r);
      var c', w', room' :| AttemptedAt(outgoing, c', w', w, room', room, r);
      RecordTravels(ch, flight, maxLen, outgoing, c', w', room');
    }
  }

  // The receiver

  /** What the receiver has read of the current datagram leaves unread; accepted are the record numbers of this epoch. */
  datatype Endpoint = Endpoint(read: ReadState, accepted: set<nat>, unread: seq<byte>, rx: E.Receiver)

  datatype Event = Datagram(bytes: seq<byte>) | OpenRecord | AskMessage | SwitchKeys

  /** What an opened record does to the handshake (dtls1_open_handshake). */
  function Heed(n: nat, maxLen: nat, rx: E.Receiver, kind: byte, plaintext: seq<byte>): (rx': E.Receiver)
    requires rx.st.Valid(n)
    ensures rx'.st.Valid(n)
  {
    if kind == HANDSHAKE then rx.(st := R.Step(n, rx.st, R.Record(maxLen, rx.keyed, plaintext)))
    else if kind == CHANGE_CIPHER_SPEC && !rx.keyed && plaintext == [1] then rx.(ccs := true)
    else if kind == APPLICATION_DATA && rx.keyed then rx
    else rx.(st := rx.st.(error := Some(R.UnexpectedRecord)))
  }

  ghost function NumberRead(ep: Endpoint): set<nat> {
    if ParseRecord(ep.unread).Some? then {FromBigEndian(ParseRecord(ep.unread).value.0.sequence)} else {}
  }

  /** dtls_open_record on what is unread, and what the handshake makes of it. */
  ghost function ReadOne(ch: Channel, n: nat, maxLen: nat, ep: Endpoint): (ep': Endpoint)
    requires ep.rx.st.Valid(n) && ep.unread != []
    ensures ep'.rx.st.Valid(n)
  {
    var v := Decide(ep.read, ep.accepted, ep.unread, ch.Open(ep.rx.keyed));
    UsedIsPositive(ep.read, ep.accepted, ep.unread, ch.Open(ep.rx.keyed));
    Endpoint(ep.read, if v.Recorded() then ep.accepted + NumberRead(ep) else ep.accepted, ep.unread[Used(v, ep.unread)..],
             match v
             case Opened(kind, plaintext, _) => Heed(n, maxLen, ep.rx, kind, plaintext)
             case RecordOverflow(_) => ep.rx.(st := ep.rx.st.(error := Some(R.UnexpectedRecord)))
             case _ => ep.rx)
  }

  /**
   One event: a datagram is taken when the last one is used up; a record is read; the
   handshake asks for a message, or switches the read keys, which starts a new window.
   */
  ghost function React(ch: Channel, n: nat, maxLen: nat, plain: nat, ep: Endpoint, e: Event): (ep': Endpoint)
    requires ep.rx.st.Valid(n)
    ensures ep'.rx.st.Valid(n)
  {
    if ep.rx.Stopped() then ep
    else match e
      case Datagram(bytes) => if ep.unread == [] then ep.(unread := bytes) else ep
      case OpenRecord => if ep.unread == [] then ep else ReadOne(ch, n, maxLen, ep)
      case AskMessage => ep.(rx := E.Receive(n, maxLen, plain, ep.rx, E.Ask))
      case SwitchKeys =>
        var rx := E.Receive(n, maxLen, plain, ep.rx, E.Switch);
        if rx.keyed && !ep.rx.keyed then
          Endpoint(ReadState(ep.read.epoch + 1, false, ch.version, ep.read.closed), {}, ep.unread, rx)
        else ep.(rx := rx)
  }

  /** What an event brings to the handshake, in the terms of EndToEnd. */
  ghost function Brought(ch: Channel, ep: Endpoint, e: Event): seq<E.Arrival> {
    if ep.rx.Stopped() then []
    else match e
      case Datagram(_) => []
      case AskMessage => [E.Ask]
      case SwitchKeys => [E.Switch]
      case OpenRecord =>
        match Decide(ep.read, ep.accepted, ep.unread, ch.Open(ep.rx.keyed))
        case Opened(kind, plaintext, _) => Meaning(ep.rx.keyed, kind, plaintext)
        case _ => []
  }

  /** The content of a record with one fragment, or with a ChangeCipherSpec. */
  function Meaning(keyed: bool, kind: byte, plaintext: seq<byte>): seq<E.Arrival> {
    if kind == CHANGE_CIPHER_SPEC then [E.Ccs]
    else match ParseFragment(plaintext)
      case Some((f, _)) => [E.Packet(keyed, [f])]
      case None => []
  }

  ghost function RunAll(ch: Channel, n: nat, maxLen: nat, plain: nat, ep: Endpoint, events: seq<Event>): (ep': Endpoint)
    requires ep.rx.st.Valid(n)
    ensures ep'.rx.st.Valid(n)
    decreases |events|
  {
    if events == [] then ep else RunAll(ch, n, maxLen, plain, React(ch, n, maxLen, plain, ep, events[0]), events[1..])
  }

  /** What a run of events brings to the handshake. */
  ghost function Trace(ch: Channel, n: nat, maxLen: nat, plain: nat, ep: Endpoint, events: seq<Event>): seq<E.Arrival>
    requires ep.rx.st.Valid(n)
    decreases |events|
  {
    if events == [] then []
    else
      Brought(ch, ep, events[0])
      + Trace(ch, n, maxLen, plain, React(ch, n, maxLen, plain, ep, events[0]), events[1..])
  }

  function Start(ch: Channel, first: nat): Endpoint {
    Endpoint(ch.Reads(false), {}, [], E.Begin(first))
  }

  // A record at the front

  lemma FrontIsRead(ch: Channel, flight: E.Flight, maxLen: nat, read: ReadState, accepted: set<nat>, keyed: bool, r: Sealed,
                    rest: seq<byte>)
    requires ch.Valid() && Travels(ch, flight, maxLen, r) && read == ch.Reads(keyed)
    ensures var v := Decide(read, accepted, r.wire + rest, ch.Open(keyed));
            && Used(v, r.wire + rest) == |r.wire| > 0
            && if r.epoch != read.epoch || Stale(accepted, NumberOf(r)) then v.Discard?
               else v == Opened(r.kind, r.plaintext, |r.wire|)
  {
    hide Stale, FromBigEndian, BigEndian, E.AllAuthentic, Decide;
    var encrypted, a :| SealedIn(ch, r, encrypted) && Brings(r, encrypted, a) && E.AllAuthentic(flight, maxLen, [a]);
    var sequence := SequenceBytes(r.epoch, r.number);
    var seal := ch.Seal(encrypted);
    assert seal(r.kind, ch.version, sequence, r.plaintext).Some?;
    WireIsLong(seal, ch.version, r);
    if encrypted == keyed {
      SealedRecordOpens(read, accepted, seal, ch.Open(keyed), ch.version, r, rest);
    } else {
      OtherEpochIsDropped(read, accepted, seal, ch.Open(keyed), ch.version, r, rest);
    }
  }

  lemma WireIsLong(seal: SealFn, version: nat, r: Sealed)
    requires SealedBy(seal, version, r)
    ensures |r.wire| >= RECORD_HEADER_LENGTH
  {
  }

  lemma OtherEpochIsDropped(st: ReadState, accepted: set<nat>, seal: SealFn, open: SealFn, version: nat, r: Sealed,
                            rest: seq<byte>)
    requires SealedBy(seal, version, r) && version < 0x10000 && r.epoch < 0x10000 && r.epoch != st.epoch
    requires |seal(r.kind, version, SequenceBytes(r.epoch, r.number), r.plaintext).value| <= MAX_ENCRYPTED_LENGTH
    requires !st.closed && if st.nullCipher then version / 256 == 0xfe else version == st.recordVersion
    ensures Decide(st, accepted, r.wire + rest, open) == Discard(|r.wire|)
  {
    hide Stale, BigEndian, FromBigEndian;
    var ciphertext := seal(r.kind, version, SequenceBytes(r.epoch, r.number), r.plaintext).value;
    ParseRecordBytes(r.kind, version, r.epoch, r.number, ciphertext, rest);
    assert Pow256(2) == 0x10000;
    BigEndianRoundTrip(r.epoch, 2);
    assert SequenceBytes(r.epoch, r.number)[..2] == BigEndian(r.epoch, 2);
  }

  // The run

  /** What is unread are records of the flight, and the record layer reads in the epoch of the handshake's keys. */
  ghost predicate InStep(ch: Channel, flight: E.Flight, maxLen: nat, ep: Endpoint) {
    && ep.read == ch.Reads(ep.rx.keyed)
    && exists rs :: ep.unread == Wires(rs) && AllTravel(ch, flight, maxLen, rs)
  }

  /** Every datagram that arrives is one of records of the flight. */
  ghost predicate Carried(ch: Channel, flight: E.Flight, maxLen: nat, e: Event) {
    e.Datagram? ==> exists rs :: e.bytes == Wires(rs) && AllTravel(ch, flight, maxLen, rs)
  }

  ghost predicate AllCarried(ch: Channel, flight: E.Flight, maxLen: nat, events: seq<Event>) {
    forall e | e in events :: Carried(ch, flight, maxLen, e)
  }

  lemma FrontAndRest(ch: Channel, flight: E.Flight, maxLen: nat, rs: seq<Sealed>)
    requires rs != [] && AllTravel(ch, flight, maxLen, rs)
    ensures Wires(rs) == rs[0].wire + Wires(rs[1..])
    ensures Travels(ch, flight, maxLen, rs[0]) && AllTravel(ch, flight, maxLen, rs[1..])
  {
    hide Travels, Wires;
    assert [rs[0]] + rs[1..] == rs;
    WiresConcat([rs[0]], rs[1..]);
    WiresOne(rs[0]);
  }

  /** A record of the flight, once opened, does to the handshake what it brings. */
  lemma RecordIsHeeded(ch: Channel, flight: E.Flight, n: nat, maxLen: nat, rx: E.Receiver, r: Sealed)
    requires ch.Valid() && Travels(ch, flight, maxLen, r) && r.epoch == ch.Epoch(rx.keyed)
    requires rx.st.Valid(n) && !rx.Stopped()
    ensures var arrivals := Meaning(rx.keyed, r.kind, r.plaintext);
            && |arrivals| == 1 && E.AllAuthentic(flight, maxLen, arrivals)
            && Heed(n, maxLen, rx, r.kind, r.plaintext) == E.Receive(n, maxLen, flight.plain, rx, arrivals[0])
  {
    hide SealedBy, R.Step, R.Ring.Valid, E.Flight.Genuine;
    var encrypted, a :| SealedIn(ch, r, encrypted) && Brings(r, encrypted, a) && E.AllAuthentic(flight, maxLen, [a]);
    assert a in [a];
    if a.Packet? {
      var f := a.fragments[0];
      assert f in a.fragments;
      E.GenuineFits(flight, maxLen, f);
      PackOne(f);
      assert a.fragments == [f];
      ParseFragmentExact(r.plaintext, f, []);
      assert r.plaintext + [] == r.plaintext;
    }
  }

  lemma PackOne(f: Fragment)
    ensures Pack([f]) == f.Bytes()
  {
    assert [f][1..] == [] && f.Bytes() + [] == f.Bytes();
  }

  /** Reading one record does to the handshake what the trace says. */
  lemma ReadSimulates(ch: Channel, flight: E.Flight, n: nat, maxLen: nat, ep: Endpoint)
    requires ch.Valid() && ep.rx.st.Valid(n) && !ep.rx.Stopped() && ep.unread != [] && InStep(ch, flight, maxLen, ep)
    ensures var ep', arrivals := ReadOne(ch, n, maxLen, ep), Brought(ch, ep, OpenRecord);
            && ep'.rx == E.Run(n, maxLen, flight.plain, ep.rx, arrivals)
            && E.AllAuthentic(flight, maxLen, arrivals) && ep'.rx.keyed == ep.rx.keyed
            && InStep(ch, flight, maxLen, ep')
  {
    hide Travels, Wires, AllTravel, Stale, Decide, Heed, Meaning, E.AllAuthentic, R.State.Valid, E.Receive;
    var rs :| ep.unread == Wires(rs) && AllTravel(ch, flight, maxLen, rs);
    assert rs != [] by {
      NoWires(rs);
    }
    var r, rest := rs[0], rs[1..];
    FrontAndRest(ch, flight, maxLen, rs);
    FrontIsRead(ch, flight, maxLen, ep.read, ep.accepted, ep.rx.keyed, r, Wires(rest));
    assert ep.unread[|r.wire|..] == Wires(rest);
    NothingIsAuthentic(flight, maxLen);
    if r.epoch == ep.read.epoch && !Stale(ep.accepted, NumberOf(r)) {
      RecordIsHeeded(ch, flight, n, maxLen, ep.rx, r);
      var arrivals := Meaning(ep.rx.keyed, r.kind, r.plaintext);
      OneArrival(n, maxLen, flight.plain, ep.rx, arrivals);
      HeedKeepsKeys(n, maxLen, ep.rx, r.kind, r.plaintext);
    }
  }

  lemma NoWires(rs: seq<Sealed>)
    ensures rs == [] ==> Wires(rs) == []
  {
  }

  lemma NothingIsAuthentic(flight: E.Flight, maxLen: nat)
    ensures E.AllAuthentic(flight, maxLen, [])
  {
  }

  lemma OneArrival(n: nat, maxLen: nat, plain: nat, rx: E.Receiver, arrivals: seq<E.Arrival>)
    requires rx.st.Valid(n) && |arrivals| == 1
    ensures E.Run(n, maxLen, plain, rx, arrivals) == E.Receive(n, maxLen, plain, rx, arrivals[0])
  {
    hide E.Receive;
    assert arrivals[1..] == [];
  }

  lemma HeedKeepsKeys(n: nat, maxLen: nat, rx: E.Receiver, kind: byte, plaintext: seq<byte>)
    requires rx.st.Valid(n)
    ensures Heed(n, maxLen, rx, kind, plaintext).keyed == rx.keyed
  {
  }

  lemma EventSimulates(ch: Channel, flight: E.Flight, n: nat, maxLen: nat, ep: Endpoint, e: Event)
    requires ch.Valid() && ep.rx.st.Valid(n) && InStep(ch, flight, maxLen, ep) && Carried(ch, flight, maxLen, e)
    ensures var ep', arrivals := React(ch, n, maxLen, flight.plain, ep, e), Brought(ch, ep, e);
            && ep'.rx == E.Run(n, maxLen, flight.plain, ep.rx, arrivals)
            && E.AllAuthentic(flight, maxLen, arrivals) && InStep(ch, flight, maxLen, ep')
  {
    NothingIsAuthentic(flight, maxLen);
    if !ep.rx.Stopped() {
      match e
      case Datagram(_) =>
        hide AllTravel, Wires;
      case OpenRecord =>
        if ep.unread != [] {
          hide ReadOne, Brought, InStep;
          ReadSimulates(ch, flight, n, maxLen, ep);
        }
      case AskMessage =>
        hide AllTravel, Wires, R.Step;
        OneArrival(n, maxLen, flight.plain, ep.rx, [E.Ask]);
      case SwitchKeys =>
        hide AllTravel, Wires, R.Step;
        OneArrival(n, maxLen, flight.plain, ep.rx, [E.Switch]);
    }
  }

  lemma AuthenticConcat(flight: E.Flight, maxLen: nat, a: seq<E.Arrival>, b: seq<E.Arrival>)
    requires E.AllAuthentic(flight, maxLen, a) && E.AllAuthentic(flight, maxLen, b)
    ensures E.AllAuthentic(flight, maxLen, a + b)
  {
    hide E.Authentic;
  }

  /** Main result: the record layer, with its window and its epochs, is invisible to the handshake. */
  lemma {:induction false} RecordLayerIsInvisible(ch: Channel, flight: E.Flight, n: nat, maxLen: nat, ep: Endpoint,
                                                  events: seq<Event>)
    requires ch.Valid() && ep.rx.st.Valid(n) && InStep(ch, flight, maxLen, ep) && AllCarried(ch, flight, maxLen, events)
    ensures var trace := Trace(ch, n, maxLen, flight.plain, ep, events);
            && RunAll(ch, n, maxLen, flight.plain, ep, events).rx == E.Run(n, maxLen, flight.plain, ep.rx, trace)
            && E.AllAuthentic(flight, maxLen, trace)
            && InStep(ch, flight, maxLen, RunAll(ch, n, maxLen, flight.plain, ep, events))
    decreases |events|
  {
    NothingIsAuthentic(flight, maxLen);
    if events != [] {
      hide React, Brought, InStep, Carried, E.Receive, E.AllAuthentic, R.State.Valid;
      assert events[0] in events && forall e | e in events[1..] :: e in events;
      var ep' := React(ch, n, maxLen, flight.plain, ep, events[0]);
      EventSimulates(ch, flight, n, maxLen, ep, events[0]);
      RecordLayerIsInvisible(ch, flight, n, maxLen, ep', events[1..]);
      var now, later := Brought(ch, ep, events[0]), Trace(ch, n, maxLen, flight.plain, ep', events[1..]);
      E.RunConcat(n, maxLen, flight.plain, ep.rx, now, later);
      AuthenticConcat(flight, maxLen, now, later);
    }
  }

  lemma StartIsInStep(ch: Channel, flight: E.Flight, maxLen: nat)
    ensures InStep(ch, flight, maxLen, Start(ch, flight.first))
  {
    NoneTravel(ch, flight, maxLen);
    assert Wires([]) == [];
  }

  /**
   Main result.  Whatever datagrams of a flight arrive, in whatever order, however often, or
   not at all: what the receiver hands over is the beginning of the flight, exactly as
   queued.  Nothing stops it but a fragment of the message in the new epoch that is sent anew
   after that message was taken, and that with everything handed over.
   */
  lemma FlightsAreDelivered(ch: Channel, flight: E.Flight, n: nat, maxLen: nat, events: seq<Event>)
    requires ch.Valid() && flight.Valid(n) && AllCarried(ch, flight, maxLen, events)
    ensures Start(ch, flight.first).rx.st.Valid(n)
    ensures var rx := RunAll(ch, n, maxLen, flight.plain, Start(ch, flight.first), events).rx;
            && |rx.st.delivered| <= |flight.msgs|
            && (forall k | 0 <= k < |rx.st.delivered| :: rx.st.delivered[k] == flight.msgs[k].Raw(flight.first + k))
            && (rx.Stopped() ==>
                  && |rx.st.delivered| == |flight.msgs| && flight.plain < |flight.msgs|
                  && rx.st.error == Some(R.UnexpectedRecord) && !rx.refused)
  {
    hide E.Run, E.Heard, E.EverRepeats, E.AllAuthentic, E.Message.Raw, RunAll, Trace, InStep, AllCarried;
    E.BeginFollows(n, flight);
    StartIsInStep(ch, flight, maxLen);
    RecordLayerIsInvisible(ch, flight, n, maxLen, Start(ch, flight.first), events);
    var trace := Trace(ch, n, maxLen, flight.plain, Start(ch, flight.first), events);
    E.FragmentationIsInvisible(n, maxLen, flight, trace);
  }

  /** The handshake asks k times and then switches the keys. */
  function Asking(k: nat): seq<Event> {
    if k == 0 then [SwitchKeys] else [AskMessage] + Asking(k - 1)
  }

  lemma {:induction false} AskingIsAsks(ch: Channel, n: nat, maxLen: nat, plain: nat, ep: Endpoint, k: nat)
    requires ep.rx.st.Valid(n)
    ensures RunAll(ch, n, maxLen, plain, ep, Asking(k)).rx == E.Run(n, maxLen, plain, ep.rx, E.Asks(k) + [E.Switch])
    decreases k
  {
    var asks := E.Asks(k) + [E.Switch];
    if k == 0 {
      hide R.Step, R.State.Valid;
      assert asks == [E.Switch] && asks[1..] == [] && [SwitchKeys][1..] == [];
    } else {
      hide E.Receive, R.State.Valid;
      assert asks == [E.Ask] + (E.Asks(k - 1) + [E.Switch]) && asks[1..] == E.Asks(k - 1) + [E.Switch];
      assert ([AskMessage] + Asking(k - 1))[1..] == Asking(k - 1);
      AskIsAsk(ch, n, maxLen, plain, ep);
      AskingIsAsks(ch, n, maxLen, plain, React(ch, n, maxLen, plain, ep, AskMessage), k - 1);
    }
  }

  lemma AskIsAsk(ch: Channel, n: nat, maxLen: nat, plain: nat, ep: Endpoint)
    requires ep.rx.st.Valid(n)
    ensures React(ch, n, maxLen, plain, ep, AskMessage).rx == E.Receive(n, maxLen, plain, ep.rx, E.Ask)
  {
  }

  lemma {:induction false} AskingIsCarried(ch: Channel, flight: E.Flight, maxLen: nat, k: nat)
    ensures AllCarried(ch, flight, maxLen, Asking(k))
  {
    if k > 0 {
      AskingIsCarried(ch, flight, maxLen, k - 1);
    }
  }

  /**
   Main result.  If every record of one complete transmission is opened, those of the old
   epoch before the keys are switched and the others after, the receiver has the whole flight
   as it was queued, whatever else arrives.
   */
  lemma OpenedFlightIsComplete(ch: Channel, flight: E.Flight, n: nat, maxLen: nat, outgoing: seq<Outgoing>, pieces: seq<Piece>,
                               before: seq<Event>, after: seq<Event>)
    requires ch.Valid() && flight.Valid(n) && AllCarried(ch, flight, maxLen, before) && AllCarried(ch, flight, maxLen, after)
    requires Queues(outgoing, flight, ch.epoch) && WellFormedFlight(outgoing) && Start(ch, flight.first).rx.st.Valid(n)
    requires Walk(outgoing, Cursor(0, 0), pieces) == Some(Cursor(|outgoing|, 0))
    requires var plain := flight.plain;
             var ready := RunAll(ch, n, maxLen, plain, Start(ch, flight.first), before);
             var keyed := RunAll(ch, n, maxLen, plain, ready, Asking(plain));
             forall p | p in pieces ::
               Arrives(outgoing, flight, p, if p.index <= plain then Trace(ch, n, maxLen, plain, Start(ch, flight.first), before)
                                            else Trace(ch, n, maxLen, plain, keyed, after))
    ensures var plain := flight.plain;
            var ready := RunAll(ch, n, maxLen, plain, Start(ch, flight.first), before);
            var keyed := RunAll(ch, n, maxLen, plain, ready, Asking(plain));
            var had := RunAll(ch, n, maxLen, plain, keyed, after);
            React(ch, n, maxLen, plain, had, AskMessage).rx.st.delivered
            == seq(|flight.msgs|, k requires 0 <= k < |flight.msgs| => flight.msgs[k].Raw(flight.first + k))
  {
    var plain, start := flight.plain, Start(ch, flight.first);
    var ready := RunAll(ch, n, maxLen, plain, start, before);
    var keyed := RunAll(ch, n, maxLen, plain, ready, Asking(plain));
    var had := RunAll(ch, n, maxLen, plain, keyed, after);
    hide E.Receive, E.Run, RunAll, Trace, React, InStep, AllCarried, Asking, E.AllAuthentic, E.Message.Raw, Walk,
         Queues, WellFormedFlight, R.State.Valid, Arrives;
    StartIsInStep(ch, flight, maxLen);
    RecordLayerIsInvisible(ch, flight, n, maxLen, start, before);
    AskingIsCarried(ch, flight, maxLen, plain);
    RecordLayerIsInvisible(ch, flight, n, maxLen, ready, Asking(plain));
    AskingIsAsks(ch, n, maxLen, plain, ready, plain);
    RecordLayerIsInvisible(ch, flight, n, maxLen, keyed, after);
    AskIsAsk(ch, n, maxLen, plain, had);
    var early, late := Trace(ch, n, maxLen, plain, start, before), Trace(ch, n, maxLen, plain, keyed, after);
    OneTransmissionSuffices(n, maxLen, flight, outgoing, ch.epoch, pieces, early, late);
    InPhases(n, maxLen, plain, start.rx, early, late);
  }

  lemma InPhases(n: nat, maxLen: nat, plain: nat, rx: E.Receiver, early: seq<E.Arrival>, late: seq<E.Arrival>)
    requires rx.st.Valid(n)
    ensures var keyed := E.Run(n, maxLen, plain, E.Run(n, maxLen, plain, rx, early), E.Asks(plain) + [E.Switch]);
            E.Run(n, maxLen, plain, rx, early + E.Asks(plain) + [E.Switch] + late + E.Asks(1))
            == E.Receive(n, maxLen, plain, E.Run(n, maxLen, plain, keyed, late), E.Ask)
  {
    hide E.Receive, E.Run, R.State.Valid;
    var asks := E.Asks(plain) + [E.Switch];
    assert early + E.Asks(plain) + [E.Switch] == early + asks;
    E.RunConcat(n, maxLen, plain, rx, early + asks + late, E.Asks(1));
    E.RunConcat(n, maxLen, plain, rx, early + asks, late);
    E.RunConcat(n, maxLen, plain, rx, early, asks);
    var had := E.Run(n, maxLen, plain, rx, early + asks + late);
    E.RunAsks(n, maxLen, plain, had, 1);
    E.RunAsks(n, maxLen, plain, E.Receive(n, maxLen, plain, had, E.Ask), 0);
  }
}
