/**
 Fragmentation is invisible: whatever way a flight of handshake messages is cut into
 fragments and packed into records, and whichever of those records are lost, repeated or
 reordered, the receiver hands over exactly the messages the sender queued, in order, and
 hands over a message as soon as every one of its bytes has arrived (sections 4.2.3 and
 4.2.6 of RFC 6347).  A flight may end with a ChangeCipherSpec and one message in the new
 epoch; only there can a repetition be seen, and exactly when is part of the theorem.
 */
module EndToEnd {
  import opened Bits
  import opened Wrappers
  import opened Wire
  import opened Coverage
  import opened Reassembly

  datatype Message = Message(msgType: byte, body: seq<byte>) {
    function Whole(msgSeq: nat): Header {
      Header(msgType, |body|, msgSeq, 0, |body|)
    }

    /** The message as the sender queues it, a single unfragmented fragment. */
    function Raw(msgSeq: nat): seq<byte> {
      Whole(msgSeq).Bytes() + body
    }
  }

  /**
   The messages of one flight, numbered from first on.  All but at most the last are plain;
   a last one that is not comes after a ChangeCipherSpec, in the next epoch.
   */
  datatype Flight = Flight(first: nat, msgs: seq<Message>, plain: nat) {
    ghost predicate Valid(n: nat) {
      && n > 0
      && |msgs| <= n
      && plain <= |msgs| <= plain + 1
      && first + |msgs| < 0x10000
      && forall k | 0 <= k < |msgs| :: |msgs[k].body| < 0x1000000
    }

    predicate Numbers(s: nat) {
      first <= s < first + |msgs|
    }

    /** A fragment of one of the messages, of any extent. */
    ghost predicate Piece(f: Fragment) {
      && f.Fits() && Numbers(f.header.msgSeq)
      && var m := msgs[f.header.msgSeq - first];
         && f.header.msgType == m.msgType && f.header.msgLen == |m.body|
         && f.header.fragOff + |f.body| <= |m.body|
         && f.body == m.body[f.header.fragOff..f.header.fragOff + |f.body|]
    }

    /** A fragment of the flight, or of any message of an earlier one. */
    ghost predicate Genuine(maxLen: nat, f: Fragment) {
      if f.header.msgSeq < first then
        f.Fits() && f.header.fragOff + |f.body| <= f.header.msgLen <= maxLen
      else Piece(f) && f.header.msgLen <= maxLen
    }
  }

  /**
   What happens to the receiver: a record full of fragments arrives, in the old or the new
   epoch, or a ChangeCipherSpec; the handshake asks for a message, or, having had all plain
   ones, for the ChangeCipherSpec, upon which it switches the read keys.
   */
  datatype Arrival = Packet(encrypted: bool, fragments: seq<Fragment>) | Ccs | Ask | Switch

  /** The receiver: its messages, whether its keys are the new ones, and whether a ChangeCipherSpec is noted. */
  datatype Receiver = Receiver(st: State, keyed: bool, ccs: bool, refused: bool) {
    predicate Stopped() {
      st.error.Some? || refused
    }
  }

  /**
   One arrival.  Records of the other epoch are dropped; the keys are not switched while
   messages of the old epoch are left over.
   */
  function Receive(n: nat, maxLen: nat, plain: nat, r: Receiver, a: Arrival): (r': Receiver)
    requires r.st.Valid(n)
    ensures r'.st.Valid(n)
  {
    if r.Stopped() then r
    else match a
      case Packet(encrypted, fragments) =>
        if encrypted != r.keyed then r else r.(st := Step(n, r.st, Record(maxLen, encrypted, Pack(fragments))))
      case Ccs => if r.keyed then r else r.(ccs := true)
      case Ask => r.(st := Step(n, r.st, Take))
      case Switch =>
        if r.keyed || !r.ccs || |r.st.delivered| < plain then r
        else if r.st.ring.slots != map[] then r.(refused := true)
        else r.(keyed := true, ccs := false)
  }

  function Run(n: nat, maxLen: nat, plain: nat, r: Receiver, arrivals: seq<Arrival>): (r': Receiver)
    requires r.st.Valid(n)
    ensures r'.st.Valid(n)
    decreases |arrivals|
  {
    if arrivals == [] then r else Run(n, maxLen, plain, Receive(n, maxLen, plain, r, arrivals[0]), arrivals[1..])
  }

  lemma {:induction false} RunConcat(n: nat, maxLen: nat, plain: nat, r: Receiver, a: seq<Arrival>, b: seq<Arrival>)
    requires r.st.Valid(n)
    ensures Run(n, maxLen, plain, r, a + b) == Run(n, maxLen, plain, Run(n, maxLen, plain, r, a), b)
    decreases |a|
  {
    if a == [] {
      assert a + b == b;
    } else {
      hide Receive;
      assert (a + b)[1..] == a[1..] + b;
      RunConcat(n, maxLen, plain, Receive(n, maxLen, plain, r, a[0]), a[1..], b);
    }
  }

  function Begin(first: nat): Receiver {
    Receiver(Start(first), false, false, false)
  }

  /** The fragments that an arrival brings to the receiver's epoch. */
  function Hears(r: Receiver, a: Arrival): seq<Fragment> {
    if a.Packet? && a.encrypted == r.keyed && !r.Stopped() then a.fragments else []
  }

  /** The fragments that have been heard. */
  function Heard(n: nat, maxLen: nat, plain: nat, r: Receiver, arrivals: seq<Arrival>): seq<Fragment>
    requires r.st.Valid(n)
    decreases |arrivals|
  {
    if arrivals == [] then []
    else Hears(r, arrivals[0]) + Heard(n, maxLen, plain, Receive(n, maxLen, plain, r, arrivals[0]), arrivals[1..])
  }

  /** A fragment of the message in the new epoch arrives when that has already been taken. */
  predicate Repeats(plain: nat, r: Receiver, a: Arrival) {
    a.Packet? && a.encrypted && a.fragments != [] && r.keyed && |r.st.delivered| > plain
  }

  predicate EverRepeats(n: nat, maxLen: nat, plain: nat, r: Receiver, arrivals: seq<Arrival>)
    requires r.st.Valid(n)
    decreases |arrivals|
  {
    && arrivals != []
    && (Repeats(plain, r, arrivals[0]) || EverRepeats(n, maxLen, plain, Receive(n, maxLen, plain, r, arrivals[0]), arrivals[1..]))
  }

  predicate Seen(history: seq<Fragment>, s: nat) {
    exists f | f in history :: f.header.msgSeq == s
  }

  /** The body positions of message s that the fragments in a history carry. */
  function Carried(history: seq<Fragment>, s: nat): set<nat> {
    if history == [] then {}
    else
      var f := history[|history| - 1];
      Carried(history[..|history| - 1], s)
      + (if f.header.msgSeq == s then Range(f.header.fragOff, f.header.fragOff + |f.body|) else {})
  }

  predicate Covered(flight: Flight, history: seq<Fragment>, s: nat)
    requires flight.Numbers(s)
  {
    Seen(history, s) && Carried(history, s) == Range(0, |flight.msgs[s - flight.first].body|)
  }

  /** A partly reassembled message agrees with the one sent, on the bytes that have arrived. */
  ghost predicate Agrees(p: Partial, m: Message, s: nat) {
    && p.Valid(s)
    && p.msgType == m.msgType && p.msgLen == |m.body|
    && forall j | HEADER_LENGTH <= j < |p.data| && j - HEADER_LENGTH in p.received ::
         p.data[j] == m.body[j - HEADER_LENGTH]
  }

  ghost predicate SlotsFollow(flight: Flight, ring: Ring, history: seq<Fragment>) {
    && (forall s | s in ring.slots :: flight.Numbers(s) && Agrees(ring.slots[s], flight.msgs[s - flight.first], s))
    && (forall s | ring.readSeq <= s && flight.Numbers(s) :: s in ring.slots <==> Seen(history, s))
    && (forall s | s in ring.slots :: ring.slots[s].received == Carried(history, s))
  }

  /** What has been handed over is the beginning of the flight. */
  ghost predicate Delivers(flight: Flight, st: State) {
    && |st.delivered| <= |flight.msgs|
    && st.ring.readSeq == flight.first + |st.delivered|
    && (forall k | 0 <= k < |st.delivered| :: st.delivered[k] == flight.msgs[k].Raw(flight.first + k))
  }

  /** Everything heard so far was plain. */
  predicate AllPlain(flight: Flight, history: seq<Fragment>) {
    forall f | f in history :: f.header.msgSeq < flight.first + flight.plain
  }

  /** The receiver is in step with a flight of which it has heard these fragments. */
  ghost predicate Follows(n: nat, flight: Flight, r: Receiver, history: seq<Fragment>) {
    && r.st.Valid(n) && !r.Stopped()
    && Delivers(flight, r.st)
    && (if r.keyed then |r.st.delivered| >= flight.plain else AllPlain(flight, history))
    && SlotsFollow(flight, r.st.ring, history)
  }

  // One fragment

  lemma StoreAgrees(p: Partial, m: Message, f: Fragment)
    requires Agrees(p, m, f.header.msgSeq)
    requires f.header.fragOff + |f.body| <= |m.body|
    requires f.body == m.body[f.header.fragOff..f.header.fragOff + |f.body|]
    ensures Agrees(p.Store(f), m, f.header.msgSeq)
  {
    hide Header.Bytes, Header.Fits;
    StoreKeepsValid(p, f);
  }

  lemma EmptyAgrees(m: Message, h: Header)
    requires h.Fits() && h.msgType == m.msgType && h.msgLen == |m.body|
    ensures Agrees(Reassembly.Empty(h), m, h.msgSeq) && Reassembly.Empty(h).received == {}
  {
    hide Header.Bytes;
    EmptyIsValid(h);
  }

  lemma {:induction false} UnseenCarriesNothing(history: seq<Fragment>, s: nat)
    requires !Seen(history, s)
    ensures Carried(history, s) == {}
  {
    if history != [] {
      var front := history[..|history| - 1];
      assert history[|history| - 1] in history && forall f | f in front :: f in history;
      UnseenCarriesNothing(front, s);
    }
  }

  lemma SeenStep(history: seq<Fragment>, f: Fragment, s: nat)
    ensures Seen(history + [f], s) <==> Seen(history, s) || f.header.msgSeq == s
    ensures Carried(history + [f], s) == Carried(history, s)
            + (if f.header.msgSeq == s then Range(f.header.fragOff, f.header.fragOff + |f.body|) else {})
  {
    assert (history + [f])[..|history|] == history;
    if Seen(history, s) {
      var g :| g in history && g.header.msgSeq == s;
      assert g in history + [f];
    }
    assert f in history + [f];
  }

  /** The message a fragment of the flight is stored in. */
  function Target(ring: Ring, f: Fragment): Partial {
    if f.header.msgSeq in ring.slots then ring.slots[f.header.msgSeq] else Reassembly.Empty(f.header)
  }

  /** The message a fragment of the flight finds is its own, with what has arrived of it. */
  lemma TargetAgrees(n: nat, flight: Flight, ring: Ring, history: seq<Fragment>, f: Fragment)
    requires flight.Valid(n) && flight.Piece(f)
    requires ring.readSeq <= f.header.msgSeq && SlotsFollow(flight, ring, history)
    ensures var p, m := Target(ring, f), flight.msgs[f.header.msgSeq - flight.first];
            && Agrees(p, m, f.header.msgSeq)
            && p.received == Carried(history, f.header.msgSeq)
            && |p.data| == HEADER_LENGTH + p.msgLen && f.header.fragOff + |f.body| <= p.msgLen
  {
    hide Reassembly.Empty, Header.Bytes, Header.Fits, Carried, Seen;
    var s := f.header.msgSeq;
    PieceFits(flight, f);
    if s !in ring.slots {
      EmptyAgrees(flight.msgs[s - flight.first], f.header);
      UnseenCarriesNothing(history, s);
    }
  }

  /** A fragment of the flight is never refused: it is old, or it is stored. */
  lemma PieceIsAccepted(c: Config, flight: Flight, ring: Ring, f: Fragment)
    requires flight.Valid(c.n) && ring.Valid(c.n) && flight.Genuine(c.maxLen, f)
    requires flight.first <= ring.readSeq && (c.encrypted ==> f.header.msgSeq == ring.readSeq)
    requires ring.readSeq <= f.header.msgSeq ==>
               var p, m := Target(ring, f), flight.msgs[f.header.msgSeq - flight.first];
               && p.msgType == m.msgType && p.msgLen == |m.body|
               && |p.data| == HEADER_LENGTH + p.msgLen && f.header.fragOff + |f.body| <= p.msgLen
    ensures f.header.msgSeq < ring.readSeq ==> Accept(c, ring, f) == (ring, None)
    ensures f.header.msgSeq >= ring.readSeq ==>
              var p := Target(ring, f);
              Accept(c, ring, f) ==
                (ring.(slots := ring.slots[f.header.msgSeq := if p.Complete() then p else p.Store(f)]), None)
  {
    hide Partial.Complete, Partial.Store, Partial.Valid, Header.Bytes, Reassembly.Empty;
  }

  lemma PutFollows(flight: Flight, ring: Ring, history: seq<Fragment>, f: Fragment, p: Partial)
    requires SlotsFollow(flight, ring, history) && flight.Numbers(f.header.msgSeq)
    requires ring.readSeq <= f.header.msgSeq
    requires Agrees(p, flight.msgs[f.header.msgSeq - flight.first], f.header.msgSeq)
    requires p.received == Carried(history + [f], f.header.msgSeq)
    ensures SlotsFollow(flight, ring.(slots := ring.slots[f.header.msgSeq := p]), history + [f])
  {
    hide Agrees;
    forall s: nat
      ensures Seen(history + [f], s) <==> Seen(history, s) || f.header.msgSeq == s
      ensures f.header.msgSeq != s ==> Carried(history + [f], s) == Carried(history, s)
    {
      SeenStep(history, f, s);
    }
  }

  lemma OldFollows(flight: Flight, ring: Ring, history: seq<Fragment>, f: Fragment)
    requires SlotsFollow(flight, ring, history) && f.header.msgSeq < ring.readSeq
    requires forall s | s in ring.slots :: ring.readSeq <= s
    ensures SlotsFollow(flight, ring, history + [f])
  {
    hide Agrees;
    forall s: nat
      ensures Seen(history + [f], s) <==> Seen(history, s) || f.header.msgSeq == s
      ensures f.header.msgSeq != s ==> Carried(history + [f], s) == Carried(history, s)
    {
      SeenStep(history, f, s);
    }
  }

  /** Storing a fragment, unless the message was complete before, accounts for just its bytes. */
  lemma StoredTarget(flight: Flight, history: seq<Fragment>, f: Fragment, p: Partial)
    requires flight.Piece(f) && f.header.fragOff + |f.body| <= p.msgLen && |p.data| == HEADER_LENGTH + p.msgLen
    requires Agrees(p, flight.msgs[f.header.msgSeq - flight.first], f.header.msgSeq)
    requires p.received == Carried(history, f.header.msgSeq)
    ensures var q := if p.Complete() then p else p.Store(f);
            && Agrees(q, flight.msgs[f.header.msgSeq - flight.first], f.header.msgSeq)
            && q.received == Carried(history + [f], f.header.msgSeq)
  {
    hide Agrees, Carried, Seen, Fragment.Fits;
    AgreesShape(p, flight.msgs[f.header.msgSeq - flight.first], f.header.msgSeq);
    SeenStep(history, f, f.header.msgSeq);
    StoreAgrees(p, flight.msgs[f.header.msgSeq - flight.first], f);
  }

  /** A fragment of the flight or of an earlier one is never refused, and after it the ring holds what has arrived. */
  lemma AcceptFollows(c: Config, flight: Flight, ring: Ring, history: seq<Fragment>, f: Fragment)
    requires flight.Valid(c.n) && ring.Valid(c.n) && flight.Genuine(c.maxLen, f)
    requires c.encrypted ==> f.header.msgSeq == ring.readSeq
    requires flight.first <= ring.readSeq && SlotsFollow(flight, ring, history)
    ensures Accept(c, ring, f).1 == None
    ensures SlotsFollow(flight, Accept(c, ring, f).0, history + [f])
  {
    GenuineFits(flight, c.maxLen, f);
    hide Accept, Agrees, SlotsFollow, Carried, Seen, Partial.Store, Partial.Complete, Partial.Valid, Target,
         Flight.Piece, Flight.Genuine;
    var s := f.header.msgSeq;
    if s < ring.readSeq {
      PieceIsAccepted(c, flight, ring, f);
      RingIsAhead(c.n, ring);
      OldFollows(flight, ring, history, f);
    } else {
      var p := Target(ring, f);
      TargetAgrees(c.n, flight, ring, history, f);
      AgreesShape(p, flight.msgs[s - flight.first], s);
      PieceIsAccepted(c, flight, ring, f);
      StoredTarget(flight, history, f, p);
      PutFollows(flight, ring, history, f, if p.Complete() then p else p.Store(f));
    }
  }

  lemma RingIsAhead(n: nat, ring: Ring)
    requires ring.Valid(n)
    ensures forall s | s in ring.slots :: ring.readSeq <= s
  {
  }

  lemma AgreesShape(p: Partial, m: Message, s: nat)
    requires Agrees(p, m, s)
    ensures p.msgType == m.msgType && p.msgLen == |m.body|
  {
  }

  // Records and runs

  /** Plain packets hold fragments of plain messages, the others of the last one. */
  ghost predicate Authentic(flight: Flight, maxLen: nat, encrypted: bool, fragments: seq<Fragment>) {
    forall f | f in fragments ::
      && flight.Genuine(maxLen, f)
      && (encrypted <==> f.header.msgSeq >= flight.first + flight.plain)
  }

  ghost predicate AllAuthentic(flight: Flight, maxLen: nat, arrivals: seq<Arrival>) {
    forall a | a in arrivals :: a.Packet? ==> Authentic(flight, maxLen, a.encrypted, a.fragments)
  }

  lemma AcceptPacked(c: Config, ring: Ring, fragments: seq<Fragment>)
    requires ring.Valid(c.n) && fragments != [] && fragments[0].Fits()
    requires Accept(c, ring, fragments[0]).1.None?
    ensures Accept(c, ring, fragments[0]).0.Valid(c.n)
    ensures AcceptRecord(c, ring, Pack(fragments)) ==
            AcceptRecord(c, Accept(c, ring, fragments[0]).0, Pack(fragments[1..]))
  {
    hide Accept, Ring.Valid;
    ParseFragmentExact(Pack(fragments), fragments[0], Pack(fragments[1..]));
    AcceptKeepsValid(c, ring, fragments[0]);
  }

  lemma {:induction false} RecordFollows(c: Config, flight: Flight, ring: Ring, history: seq<Fragment>,
                                         fragments: seq<Fragment>)
    requires flight.Valid(c.n) && ring.Valid(c.n) && flight.first <= ring.readSeq && SlotsFollow(flight, ring, history)
    requires forall f | f in fragments ::
               flight.Genuine(c.maxLen, f) && (c.encrypted ==> f.header.msgSeq == ring.readSeq)
    ensures AcceptRecord(c, ring, Pack(fragments)).1 == None
    ensures SlotsFollow(flight, AcceptRecord(c, ring, Pack(fragments)).0, history + fragments)
    decreases |fragments|
  {
    hide SlotsFollow, Accept, Ring.Valid, AcceptRecord, Flight.Genuine, Pack;
    if fragments == [] {
      NothingAccepted(c, ring);
      assert history + fragments == history;
    } else {
      var f, rest := fragments[0], fragments[1..];
      assert f in fragments && forall g | g in rest :: g in fragments;
      GenuineFits(flight, c.maxLen, f);
      AcceptFollows(c, flight, ring, history, f);
      AcceptPacked(c, ring, fragments);
      AcceptKeepsValid(c, ring, f);
      RecordFollows(c, flight, Accept(c, ring, f).0, history + [f], rest);
      assert history + [f] + rest == history + fragments;
    }
  }

  /** In the new epoch the first fragment of another message than the current one is an error. */
  lemma RecordRepeats(c: Config, flight: Flight, ring: Ring, fragments: seq<Fragment>)
    requires flight.Valid(c.n) && ring.Valid(c.n) && c.encrypted && fragments != []
    requires flight.Genuine(c.maxLen, fragments[0]) && fragments[0].header.msgSeq != ring.readSeq
    ensures AcceptRecord(c, ring, Pack(fragments)) == (ring, Some(UnexpectedRecord))
  {
    var f := fragments[0];
    GenuineFits(flight, c.maxLen, f);
    assert Accept(c, ring, f) == (ring, Some(UnexpectedRecord));
    hide Accept;
    ParseFragmentExact(Pack(fragments), f, Pack(fragments[1..]));
  }

  lemma GenuineFits(flight: Flight, maxLen: nat, f: Fragment)
    requires flight.Genuine(maxLen, f)
    ensures f.Fits() && SizeOk(Config(0, maxLen, false), f.header)
    ensures f.header.msgSeq >= flight.first ==> flight.Piece(f)
  {
  }

  lemma NothingAccepted(c: Config, ring: Ring)
    requires ring.Valid(c.n)
    ensures AcceptRecord(c, ring, Pack([])) == (ring, None)
  {
  }

  lemma PieceFits(flight: Flight, f: Fragment)
    requires flight.Piece(f)
    ensures f.Fits() && flight.Numbers(f.header.msgSeq)
  {
  }

  lemma CompleteIsRaw(p: Partial, m: Message, s: nat)
    requires Agrees(p, m, s) && p.Complete()
    ensures p.data == m.Raw(s)
  {
    assert p.data[HEADER_LENGTH..] == m.body by {
      forall j | HEADER_LENGTH <= j < |p.data|
        ensures p.data[j] == m.body[j - HEADER_LENGTH]
      {
        assert j - HEADER_LENGTH in Range(0, p.msgLen);
      }
    }
    assert p.data == p.data[..HEADER_LENGTH] + p.data[HEADER_LENGTH..];
  }

  /** The current message is complete exactly when the fragments heard so far cover it. */
  lemma CompleteIffCovered(n: nat, flight: Flight, r: Receiver, history: seq<Fragment>)
    requires flight.Valid(n) && Follows(n, flight, r, history)
    ensures var ring := r.st.ring;
            && (ring.CurrentComplete() <==> flight.Numbers(ring.readSeq) && Covered(flight, history, ring.readSeq))
            && (ring.CurrentComplete() ==>
                  ring.slots[ring.readSeq].data == flight.msgs[|r.st.delivered|].Raw(ring.readSeq))
  {
    hide AllPlain;
    var ring := r.st.ring;
    var s := ring.readSeq;
    if s in ring.slots {
      AgreesShape(ring.slots[s], flight.msgs[s - flight.first], s);
      if ring.CurrentComplete() {
        CompleteIsRaw(ring.slots[s], flight.msgs[s - flight.first], s);
      }
    }
  }

  lemma NextFollows(n: nat, flight: Flight, ring: Ring, history: seq<Fragment>)
    requires flight.Valid(n) && ring.Valid(n) && flight.Numbers(ring.readSeq)
    requires SlotsFollow(flight, ring, history)
    ensures SlotsFollow(flight, ring.Next(), history)
  {
    hide Agrees;
  }

  lemma AskFollows(n: nat, maxLen: nat, flight: Flight, r: Receiver, history: seq<Fragment>)
    requires flight.Valid(n) && Follows(n, flight, r, history)
    ensures var r' := Receive(n, maxLen, flight.plain, r, Ask);
            && Follows(n, flight, r', history) && r'.keyed == r.keyed && r'.ccs == r.ccs
            && |r'.st.delivered| == |r.st.delivered| +
                 if flight.Numbers(r.st.ring.readSeq) && Covered(flight, history, r.st.ring.readSeq) then 1 else 0
  {
    hide SlotsFollow, AllPlain, Message.Raw, Covered, Partial.Complete, Partial.Valid;
    CompleteIffCovered(n, flight, r, history);
    if r.st.ring.CurrentComplete() {
      NextFollows(n, flight, r.st.ring, history);
    }
  }

  lemma PacketFollows(n: nat, maxLen: nat, flight: Flight, r: Receiver, history: seq<Fragment>, a: Arrival)
    requires flight.Valid(n) && Follows(n, flight, r, history) && a.Packet? && a.encrypted == r.keyed
    requires Authentic(flight, maxLen, a.encrypted, a.fragments) && !Repeats(flight.plain, r, a)
    ensures Follows(n, flight, Receive(n, maxLen, flight.plain, r, a), history + a.fragments)
  {
    hide SlotsFollow, AcceptRecord, Flight.Genuine;
    var c := Config(n, maxLen, a.encrypted);
    forall f | f in a.fragments
      ensures flight.Genuine(maxLen, f) && (a.encrypted ==> f.header.msgSeq == r.st.ring.readSeq)
    {
      GenuineIsNumbered(flight, maxLen, f);
    }
    RecordFollows(c, flight, r.st.ring, history, a.fragments);
    AcceptRecordKeepsValid(c, r.st.ring, Pack(a.fragments));
  }

  lemma GenuineIsNumbered(flight: Flight, maxLen: nat, f: Fragment)
    requires flight.Genuine(maxLen, f)
    ensures f.header.msgSeq < flight.first + |flight.msgs|
  {
  }

  lemma RepeatIsError(n: nat, maxLen: nat, flight: Flight, r: Receiver, history: seq<Fragment>, a: Arrival)
    requires flight.Valid(n) && Follows(n, flight, r, history) && Repeats(flight.plain, r, a)
    requires Authentic(flight, maxLen, a.encrypted, a.fragments)
    ensures Receive(n, maxLen, flight.plain, r, a) == r.(st := r.st.(error := Some(UnexpectedRecord)))
  {
    hide SlotsFollow, AcceptRecord, Flight.Genuine;
    var f := a.fragments[0];
    assert f in a.fragments;
    GenuineIsNumbered(flight, maxLen, f);
    RecordRepeats(Config(n, maxLen, true), flight, r.st.ring, a.fragments);
  }

  lemma PlainIsUnseen(flight: Flight, history: seq<Fragment>, s: nat)
    requires AllPlain(flight, history)
    ensures s >= flight.first + flight.plain ==> !Seen(history, s)
  {
  }

  /** When the handshake switches keys nothing of the old epoch can be left over. */
  lemma SwitchFollows(n: nat, maxLen: nat, flight: Flight, r: Receiver, history: seq<Fragment>)
    requires flight.Valid(n) && Follows(n, flight, r, history)
    ensures var r' := Receive(n, maxLen, flight.plain, r, Switch);
            Follows(n, flight, r', history) && r'.st == r.st
            && r'.keyed == (r.keyed || (r.ccs && |r.st.delivered| >= flight.plain))
  {
    hide Agrees, Carried;
    if !r.keyed && |r.st.delivered| >= flight.plain {
      var slots := r.st.ring.slots;
      forall s: nat
        ensures s !in slots
      {
        PlainIsUnseen(flight, history, s);
      }
      assert slots == map[];
    }
  }

  lemma ArrivalFollows(n: nat, maxLen: nat, flight: Flight, r: Receiver, history: seq<Fragment>, a: Arrival)
    requires flight.Valid(n) && Follows(n, flight, r, history) && !Repeats(flight.plain, r, a)
    requires a.Packet? ==> Authentic(flight, maxLen, a.encrypted, a.fragments)
    ensures Follows(n, flight, Receive(n, maxLen, flight.plain, r, a), history + Hears(r, a))
  {
    hide SlotsFollow, Delivers, AllPlain, Step, Authentic;
    assert history + [] == history;
    match a
    case Packet(encrypted, fragments) =>
      if encrypted == r.keyed {
        PacketFollows(n, maxLen, flight, r, history, a);
      }
    case Ccs =>
    case Ask =>
      AskFollows(n, maxLen, flight, r, history);
    case Switch =>
      SwitchFollows(n, maxLen, flight, r, history);
  }

  lemma {:induction false} StoppedStays(n: nat, maxLen: nat, plain: nat, r: Receiver, arrivals: seq<Arrival>)
    requires r.st.Valid(n) && r.Stopped()
    ensures Run(n, maxLen, plain, r, arrivals) == r
    decreases |arrivals|
  {
    if arrivals != [] {
      StoppedStays(n, maxLen, plain, r, arrivals[1..]);
    }
  }

  lemma AuthenticParts(flight: Flight, maxLen: nat, arrivals: seq<Arrival>)
    requires AllAuthentic(flight, maxLen, arrivals) && arrivals != []
    ensures arrivals[0].Packet? ==> Authentic(flight, maxLen, arrivals[0].encrypted, arrivals[0].fragments)
    ensures AllAuthentic(flight, maxLen, arrivals[1..])
  {
    hide Authentic;
    assert arrivals[0] in arrivals && forall a | a in arrivals[1..] :: a in arrivals;
  }

  ghost predicate Ends(n: nat, flight: Flight, r: Receiver, repeated: bool, history: seq<Fragment>) {
    if repeated then
      && r.st.error == Some(UnexpectedRecord) && !r.refused
      && Delivers(flight, r.st) && |r.st.delivered| == |flight.msgs| > flight.plain
    else Follows(n, flight, r, history)
  }

  lemma RunUnfolds(n: nat, maxLen: nat, plain: nat, r: Receiver, arrivals: seq<Arrival>)
    requires r.st.Valid(n) && arrivals != []
    ensures var r' := Receive(n, maxLen, plain, r, arrivals[0]);
            && Run(n, maxLen, plain, r, arrivals) == Run(n, maxLen, plain, r', arrivals[1..])
            && Heard(n, maxLen, plain, r, arrivals) == Hears(r, arrivals[0]) + Heard(n, maxLen, plain, r', arrivals[1..])
            && (EverRepeats(n, maxLen, plain, r, arrivals) <==>
                  Repeats(plain, r, arrivals[0]) || EverRepeats(n, maxLen, plain, r', arrivals[1..]))
  {
    hide Receive, Hears, Repeats;
  }

  lemma NothingEnds(n: nat, maxLen: nat, flight: Flight, r: Receiver, history: seq<Fragment>)
    requires Follows(n, flight, r, history)
    ensures r.st.Valid(n)
    ensures Ends(n, flight, Run(n, maxLen, flight.plain, r, []), EverRepeats(n, maxLen, flight.plain, r, []),
                 history + Heard(n, maxLen, flight.plain, r, []))
  {
    hide SlotsFollow, Delivers;
    assert history + [] == history;
  }

  lemma RepeatEnds(n: nat, maxLen: nat, flight: Flight, r: Receiver, history: seq<Fragment>, arrivals: seq<Arrival>)
    requires flight.Valid(n) && Follows(n, flight, r, history) && AllAuthentic(flight, maxLen, arrivals)
    requires arrivals != [] && Repeats(flight.plain, r, arrivals[0])
    ensures r.st.Valid(n)
    ensures Ends(n, flight, Run(n, maxLen, flight.plain, r, arrivals), EverRepeats(n, maxLen, flight.plain, r, arrivals),
                 history + Heard(n, maxLen, flight.plain, r, arrivals))
  {
    StillRuns(n, flight, r, history);
    FollowsIsValid(n, flight, r, history);
    hide Flight.Valid, State.Valid, Receive, Heard, Follows, Delivers, AllAuthentic, Authentic;
    AuthenticParts(flight, maxLen, arrivals);
    RepeatIsError(n, maxLen, flight, r, history, arrivals[0]);
    RepeatIsLate(n, flight, r, history, arrivals[0]);
    StoppedStays(n, maxLen, flight.plain, Receive(n, maxLen, flight.plain, r, arrivals[0]), arrivals[1..]);
  }

  lemma EndsLater(n: nat, maxLen: nat, flight: Flight, r: Receiver, history: seq<Fragment>, arrivals: seq<Arrival>)
    requires r.st.Valid(n) && arrivals != [] && !Repeats(flight.plain, r, arrivals[0])
    requires var r', rest := Receive(n, maxLen, flight.plain, r, arrivals[0]), arrivals[1..];
             Ends(n, flight, Run(n, maxLen, flight.plain, r', rest), EverRepeats(n, maxLen, flight.plain, r', rest),
                  history + Hears(r, arrivals[0]) + Heard(n, maxLen, flight.plain, r', rest))
    ensures Ends(n, flight, Run(n, maxLen, flight.plain, r, arrivals), EverRepeats(n, maxLen, flight.plain, r, arrivals),
                 history + Heard(n, maxLen, flight.plain, r, arrivals))
  {
    RunUnfolds(n, maxLen, flight.plain, r, arrivals);
    hide Ends, Receive, Hears, Heard, Run, EverRepeats, Repeats, State.Valid;
    var more := Heard(n, maxLen, flight.plain, Receive(n, maxLen, flight.plain, r, arrivals[0]), arrivals[1..]);
    Associates(history, Hears(r, arrivals[0]), more);
  }

  lemma Associates(a: seq<Fragment>, b: seq<Fragment>, c: seq<Fragment>)
    ensures a + b + c == a + (b + c)
  {
  }

  /** Without a repetition the receiver stays in step; the first repetition leaves it as it was, but for the error. */
  lemma {:induction false} RunFollows(n: nat, maxLen: nat, flight: Flight, r: Receiver, history: seq<Fragment>,
                                      arrivals: seq<Arrival>)
    requires flight.Valid(n) && Follows(n, flight, r, history) && AllAuthentic(flight, maxLen, arrivals)
    ensures r.st.Valid(n)
    ensures Ends(n, flight, Run(n, maxLen, flight.plain, r, arrivals), EverRepeats(n, maxLen, flight.plain, r, arrivals),
                 history + Heard(n, maxLen, flight.plain, r, arrivals))
    decreases |arrivals|
  {
    FollowsIsValid(n, flight, r, history);
    hide Flight.Valid, State.Valid, Receive, Hears, Heard, Run, EverRepeats, Follows, AllAuthentic, Authentic, Repeats,
         Ends;
    if arrivals == [] {
      NothingEnds(n, maxLen, flight, r, history);
    } else if Repeats(flight.plain, r, arrivals[0]) {
      RepeatEnds(n, maxLen, flight, r, history, arrivals);
    } else {
      AuthenticParts(flight, maxLen, arrivals);
      ArrivalFollows(n, maxLen, flight, r, history, arrivals[0]);
      RunFollows(n, maxLen, flight, Receive(n, maxLen, flight.plain, r, arrivals[0]), history + Hears(r, arrivals[0]),
                 arrivals[1..]);
      EndsLater(n, maxLen, flight, r, history, arrivals);
    }
  }

  lemma StillRuns(n: nat, flight: Flight, r: Receiver, history: seq<Fragment>)
    requires Follows(n, flight, r, history)
    ensures !r.Stopped()
  {
  }

  lemma RepeatIsLate(n: nat, flight: Flight, r: Receiver, history: seq<Fragment>, a: Arrival)
    requires flight.Valid(n) && Follows(n, flight, r, history) && Repeats(flight.plain, r, a)
    ensures |r.st.delivered| == |flight.msgs| > flight.plain
    ensures Delivers(flight, r.st.(error := Some(UnexpectedRecord)))
  {
    hide SlotsFollow, AllPlain;
  }

  lemma FollowsIsValid(n: nat, flight: Flight, r: Receiver, history: seq<Fragment>)
    requires Follows(n, flight, r, history)
    ensures r.st.Valid(n)
  {
  }

  lemma BeginFollows(n: nat, flight: Flight)
    requires flight.Valid(n)
    ensures Follows(n, flight, Begin(flight.first), [])
  {
    assert forall s :: !Seen([], s);
  }

  /**
   Main result.  However the flight was cut, packed, lost, repeated and reordered, and mixed
   with fragments of earlier flights, the keys are never refused, the messages handed over
   are the first ones of the flight exactly as the sender queued them, and the next one is
   available exactly when its bytes have all been heard.  The one thing that can go wrong is
   that a fragment of the message in the new epoch arrives again after that was taken.
   */
  lemma FragmentationIsInvisible(n: nat, maxLen: nat, flight: Flight, arrivals: seq<Arrival>)
    requires flight.Valid(n) && AllAuthentic(flight, maxLen, arrivals)
    ensures Begin(flight.first).st.Valid(n)
    ensures var r := Run(n, maxLen, flight.plain, Begin(flight.first), arrivals);
            var st, history := r.st, Heard(n, maxLen, flight.plain, Begin(flight.first), arrivals);
            && !r.refused
            && st.error == (if EverRepeats(n, maxLen, flight.plain, Begin(flight.first), arrivals)
                            then Some(UnexpectedRecord) else None)
            && |st.delivered| <= |flight.msgs|
            && (forall k | 0 <= k < |st.delivered| :: st.delivered[k] == flight.msgs[k].Raw(flight.first + k))
            && st.ring.readSeq == flight.first + |st.delivered|
            && (st.error.Some? ==> |st.delivered| == |flight.msgs| > flight.plain)
            && (st.error.None? ==>
                  (st.ring.CurrentComplete() <==>
                     flight.Numbers(st.ring.readSeq) && Covered(flight, history, st.ring.readSeq)))
  {
    hide SlotsFollow, AllPlain, AllAuthentic, Run, Heard, EverRepeats, Message.Raw, Covered;
    BeginFollows(n, flight);
    RunFollows(n, maxLen, flight, Begin(flight.first), [], arrivals);
    var history := Heard(n, maxLen, flight.plain, Begin(flight.first), arrivals);
    assert [] + history == history;
    if !EverRepeats(n, maxLen, flight.plain, Begin(flight.first), arrivals) {
      CompleteIffCovered(n, flight, Run(n, maxLen, flight.plain, Begin(flight.first), arrivals), history);
    }
  }

  function Asks(k: nat): seq<Arrival> {
    if k == 0 then [] else [Ask] + Asks(k - 1)
  }

  lemma FollowsDelivers(n: nat, flight: Flight, r: Receiver, history: seq<Fragment>)
    requires Follows(n, flight, r, history)
    ensures |r.st.delivered| <= |flight.msgs| && r.st.ring.readSeq == flight.first + |r.st.delivered|
  {
  }

  lemma RunAsks(n: nat, maxLen: nat, plain: nat, r: Receiver, k: nat)
    requires r.st.Valid(n)
    ensures Run(n, maxLen, plain, r, Asks(k)) ==
              if k == 0 then r else Run(n, maxLen, plain, Receive(n, maxLen, plain, r, Ask), Asks(k - 1))
  {
    hide Receive;
    if k > 0 {
      assert Asks(k)[0] == Ask && Asks(k)[1..] == Asks(k - 1);
    }
  }

  /** Asking often enough yields every message up to the first that is not covered, and never does harm. */
  lemma {:induction false} Drain(n: nat, maxLen: nat, flight: Flight, r: Receiver, history: seq<Fragment>, upTo: nat, k: nat)
    requires flight.Valid(n) && Follows(n, flight, r, history) && upTo <= |flight.msgs| && upTo <= |r.st.delivered| + k
    requires forall s | flight.first + |r.st.delivered| <= s < flight.first + upTo :: Covered(flight, history, s)
    ensures var r' := Run(n, maxLen, flight.plain, r, Asks(k));
            Follows(n, flight, r', history) && r'.keyed == r.keyed && r'.ccs == r.ccs && |r'.st.delivered| >= upTo
    decreases k
  {
    FollowsIsValid(n, flight, r, history);
    RunAsks(n, maxLen, flight.plain, r, k);
    FollowsDelivers(n, flight, r, history);
    if k > 0 {
      hide Follows, Covered, Receive, Run, Asks, Flight.Valid, State.Valid;
      AskFollows(n, maxLen, flight, r, history);
      var r' := Receive(n, maxLen, flight.plain, r, Ask);
      FollowsIsValid(n, flight, r', history);
      Drain(n, maxLen, flight, r', history, upTo, k - 1);
    }
  }
}
