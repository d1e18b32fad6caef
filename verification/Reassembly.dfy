/**
 The receiving half of the DTLS handshake transport as a state machine on values: a
 window of n message numbers starting at readSeq, each with the part of its message that
 has arrived (d1_both.cc, dtls1_open_handshake, dtls1_get_message, dtls1_next_message).
 */
module Reassembly {
  import opened Bits
  import opened Wrappers
  import opened Wire
  import opened Coverage

  datatype Error =
    | BadHandshakeRecord
    | ExcessiveMessageSize
    | UnexpectedRecord
    | OutsideWindow
    | FragmentMismatch

  datatype Partial = Partial(msgType: byte, msgLen: nat, data: seq<byte>, received: set<nat>) {
    predicate Complete() {
      received == Range(0, msgLen)
    }

    /** The header is that of the whole message, and the arrived bytes lie inside it. */
    predicate Valid(msgSeq: nat) {
      && |data| == HEADER_LENGTH + msgLen
      && received <= Range(0, msgLen)
      && Whole(msgSeq).Fits()
      && data[..HEADER_LENGTH] == Whole(msgSeq).Bytes()
    }

    function Whole(msgSeq: nat): Header {
      Header(msgType, msgLen, msgSeq, 0, msgLen)
    }

    /** Copies the body of a fragment into place and marks its bytes. */
    function Store(f: Fragment): Partial
      requires |data| == HEADER_LENGTH + msgLen && f.header.fragOff + |f.body| <= msgLen
    {
      var start := HEADER_LENGTH + f.header.fragOff;
      this.(data := data[..start] + f.body + data[start + |f.body|..],
            received := received + Range(f.header.fragOff, f.header.fragOff + |f.body|))
    }
  }

  /** dtls1_hm_fragment_new */
  function Empty(h: Header): Partial {
    var p := Partial(h.msgType, h.msgLen, [], {});
    p.(data := p.Whole(h.msgSeq).Bytes() + seq(h.msgLen, _ => 0))
  }

  lemma EmptyIsValid(h: Header)
    requires h.Fits()
    ensures Empty(h).Valid(h.msgSeq)
    ensures Empty(h).data[HEADER_LENGTH..] == seq(h.msgLen, _ => 0)
  {
  }

  datatype Config = Config(n: nat, maxLen: nat, encrypted: bool)

  datatype Ring = Ring(readSeq: nat, slots: map<nat, Partial>) {
    ghost predicate Valid(n: nat) {
      && n > 0
      && readSeq < 0x10000
      && (forall s | s in slots :: readSeq <= s < readSeq + n && s < 0x10000 && slots[s].Valid(s))
    }

    predicate CurrentComplete() {
      readSeq in slots && slots[readSeq].Complete()
    }

    /** dtls1_next_message: the 16-bit message counter moves on. */
    function Next(): Ring {
      Ring((readSeq + 1) % 0x10000, slots - {readSeq})
    }
  }

  function SizeOk(c: Config, h: Header): bool {
    h.fragOff <= h.msgLen && h.fragOff + h.fragLen <= h.msgLen && h.msgLen <= c.maxLen
  }

  datatype Lookup = Found(part: Partial) | Rejected(error: Error)

  /** dtls1_get_incoming_message: the message a fragment of the window belongs to. */
  function Incoming(n: nat, r: Ring, h: Header): Lookup
    requires r.readSeq <= h.msgSeq
  {
    if h.msgSeq - r.readSeq >= n then Rejected(OutsideWindow)
    else
      var p := if h.msgSeq in r.slots then r.slots[h.msgSeq] else Empty(h);
      if p.msgType != h.msgType || p.msgLen != h.msgLen then Rejected(FragmentMismatch) else Found(p)
  }

  /** One fragment of a handshake record (the body of the loop of dtls1_open_handshake). */
  function Accept(c: Config, r: Ring, f: Fragment): (Ring, Option<Error>)
    requires f.Fits() && r.Valid(c.n)
  {
    var h := f.header;
    if !SizeOk(c, h) then (r, Some(ExcessiveMessageSize))
    else if c.encrypted && h.msgSeq != r.readSeq then (r, Some(UnexpectedRecord))
    else if h.msgSeq < r.readSeq || h.msgSeq > r.readSeq + c.n then (r, None)
    else match Incoming(c.n, r, h)
      case Rejected(error) => (r, Some(error))
      case Found(p) => (r.(slots := r.slots[h.msgSeq := if p.Complete() then p else p.Store(f)]), None)
  }

  /**
   What becomes of a fragment, by its header alone.  Too long for its message, or the message
   too long, is an error and stores nothing; under keys only the current message is taken;
   numbers before the window and more than n past its start are ignored; the number n past its
   start and a message whose type or length has changed are errors.
   */
  lemma HeaderDecides(c: Config, r: Ring, f: Fragment)
    requires f.Fits() && r.Valid(c.n)
    ensures var h, (r', error) := f.header, Accept(c, r, f);
            && (error == Some(ExcessiveMessageSize) <==> h.fragOff + h.fragLen > h.msgLen || h.msgLen > c.maxLen)
            && (error.Some? ==> r' == r)
            && (h.fragOff + h.fragLen <= h.msgLen <= c.maxLen ==>
                  && (error == Some(UnexpectedRecord) <==> c.encrypted && h.msgSeq != r.readSeq)
                  && (c.encrypted ==> h.msgSeq == r.readSeq || error.Some?)
                  && (!c.encrypted && (h.msgSeq < r.readSeq || h.msgSeq > r.readSeq + c.n) ==> (r', error) == (r, None))
                  && (!c.encrypted && h.msgSeq == r.readSeq + c.n ==> error == Some(OutsideWindow))
                  && (h.msgSeq == r.readSeq || (!c.encrypted && r.readSeq <= h.msgSeq < r.readSeq + c.n) ==>
                        if h.msgSeq in r.slots && (r.slots[h.msgSeq].msgType != h.msgType || r.slots[h.msgSeq].msgLen != h.msgLen)
                        then error == Some(FragmentMismatch) else error.None?))
  {
  }

  /** The bytes of a fragment have joined those of its message, and lie where they belong. */
  ghost predicate Gained(before: set<nat>, now: Partial, f: Fragment) {
    var h := f.header;
    && now.msgType == h.msgType && now.msgLen == h.msgLen
    && now.received == before + Range(h.fragOff, h.fragOff + h.fragLen)
    && |now.data| == HEADER_LENGTH + h.msgLen && h.fragOff + h.fragLen <= h.msgLen
  }

  lemma StoreGains(p: Partial, f: Fragment)
    requires f.Fits() && p.Valid(f.header.msgSeq) && p.msgType == f.header.msgType && p.msgLen == f.header.msgLen
    requires f.header.fragOff + |f.body| <= p.msgLen
    ensures Gained(p.received, if p.Complete() then p else p.Store(f), f)
    ensures !p.Complete() ==>
              p.Store(f).data[HEADER_LENGTH + f.header.fragOff..HEADER_LENGTH + f.header.fragOff + |f.body|] == f.body
  {
    hide Header.Bytes, Header.Fits;
    if p.Complete() {
      assert p.received + Range(f.header.fragOff, f.header.fragOff + |f.body|) == p.received;
    }
  }

  /** A fragment that is taken adds its bytes to its message, unless that is complete, and touches no other. */
  lemma FragmentIsStored(c: Config, r: Ring, f: Fragment)
    requires f.Fits() && r.Valid(c.n) && Accept(c, r, f).1.None?
    requires r.readSeq <= f.header.msgSeq < r.readSeq + c.n
    ensures var h, slots, now := f.header, r.slots, Accept(c, r, f).0.slots;
            && now.Keys == slots.Keys + {h.msgSeq} && (forall s | s in slots && s != h.msgSeq :: now[s] == slots[s])
            && Gained(if h.msgSeq in slots then slots[h.msgSeq].received else {}, now[h.msgSeq], f)
            && (h.msgSeq in slots && slots[h.msgSeq].Complete() ==> now == slots)
            && (h.msgSeq in slots && !slots[h.msgSeq].Complete() ==>
                  now[h.msgSeq].data[HEADER_LENGTH + h.fragOff..HEADER_LENGTH + h.fragOff + h.fragLen] == f.body)
            && (h.msgSeq !in slots && h.msgLen > 0 ==>
                  now[h.msgSeq].data[HEADER_LENGTH + h.fragOff..HEADER_LENGTH + h.fragOff + h.fragLen] == f.body)
  {
    var h := f.header;
    EmptyIsValid(h);
    var p := if h.msgSeq in r.slots then r.slots[h.msgSeq] else Empty(h);
    StoreGains(p, f);
    EmptyIsIncomplete(h);
    hide Header.Bytes, Partial.Complete, Partial.Store, Gained, Partial.Valid, Empty;
  }

  lemma EmptyIsIncomplete(h: Header)
    ensures h.msgLen > 0 ==> !Empty(h).Complete()
    ensures Empty(h).received == {} && Empty(h).msgType == h.msgType && Empty(h).msgLen == h.msgLen
  {
    assert h.msgLen > 0 ==> 0 in Range(0, h.msgLen);
  }

  lemma AcceptKeepsValid(c: Config, r: Ring, f: Fragment)
    requires f.Fits() && r.Valid(c.n)
    ensures Accept(c, r, f).0.Valid(c.n) && Accept(c, r, f).0.readSeq == r.readSeq
  {
    var h := f.header;
    if SizeOk(c, h) {
      var p := if h.msgSeq in r.slots then r.slots[h.msgSeq] else Empty(h);
      if p.msgLen == h.msgLen && p.Valid(h.msgSeq) {
        StoreKeepsValid(p, f);
      }
    }
  }

  lemma StoreKeepsValid(p: Partial, f: Fragment)
    requires p.Valid(f.header.msgSeq) && f.header.fragOff + |f.body| <= p.msgLen
    ensures p.Store(f).Valid(f.header.msgSeq)
    ensures forall j | HEADER_LENGTH <= j < HEADER_LENGTH + p.msgLen :: p.Store(f).data[j] ==
              var k := j - HEADER_LENGTH - f.header.fragOff;
              if 0 <= k < |f.body| then f.body[k] else p.data[j]
  {
    hide Header.Bytes, Header.Fits;
    var q := p.Store(f);
    assert q.data[..HEADER_LENGTH] == p.data[..HEADER_LENGTH];
  }

  /**
   Two numbers of the window that share a place in a ring of n places are equal, so a place
   never holds a fragment of a different message than the one being looked up.
   */
  lemma WindowIsInjective(n: nat, lo: nat, a: nat, b: nat)
    requires n > 0 && lo <= a < lo + n && lo <= b < lo + n
    requires a % n == b % n
    ensures a == b
  {
    if a <= b {
      SameResidue(n, a, b);
    } else {
      SameResidue(n, b, a);
    }
  }

  lemma SameResidue(n: nat, a: nat, b: nat)
    requires n > 0 && a <= b < a + n && a % n == b % n
    ensures a == b
  {
    assert b - a == n * (b / n - a / n);
    MultipleIsFar(n, b / n - a / n);
  }

  /** Moving on keeps the ring well formed, also where the 16-bit counter wraps. */
  lemma NextKeepsValid(n: nat, r: Ring)
    requires r.Valid(n) && r.CurrentComplete()
    ensures r.Next().Valid(n)
    ensures r.readSeq == 0xffff ==> r.Next() == Ring(0, map[])
  {
    hide Partial.Valid, Partial.Complete;
    if r.readSeq == 0xffff {
      assert r.slots.Keys <= {r.readSeq};
      assert r.Next().slots == map[];
    }
  }

  /** All the fragments of one record; on an error the fragments before it stay stored. */
  function AcceptRecord(c: Config, r: Ring, record: seq<byte>): (Ring, Option<Error>)
    requires r.Valid(c.n)
    decreases |record|
  {
    if record == [] then (r, None)
    else
      match ParseFragment(record)
      case None => (r, Some(BadHandshakeRecord))
      case Some((f, rest)) =>
        ParseFragmentExact(record, f, rest);
        AcceptKeepsValid(c, r, f);
        var (r', error) := Accept(c, r, f);
        if error.Some? then (r', error) else AcceptRecord(c, r', rest)
  }

  lemma {:induction false} AcceptRecordKeepsValid(c: Config, r: Ring, record: seq<byte>)
    requires r.Valid(c.n)
    ensures AcceptRecord(c, r, record).0.Valid(c.n)
    ensures AcceptRecord(c, r, record).0.readSeq == r.readSeq
    decreases |record|
  {
    var parsed := ParseFragment(record);
    if record != [] && parsed.Some? {
      var (f, rest) := parsed.value;
      ParseFragmentExact(record, f, rest);
      AcceptKeepsValid(c, r, f);
      AcceptRecordKeepsValid(c, Accept(c, r, f).0, rest);
    }
  }

  // Runs

  datatype Event = Record(maxLen: nat, encrypted: bool, record: seq<byte>) | Take

  datatype State = State(ring: Ring, delivered: seq<seq<byte>>, error: Option<Error>) {
    ghost predicate Valid(n: nat) {
      ring.Valid(n)
    }
  }

  /** A record arrives, or the handshake asks for the current message and consumes it. */
  function Step(n: nat, s: State, e: Event): (s': State)
    requires s.Valid(n)
    ensures s'.Valid(n)
  {
    if s.error.Some? then s
    else match e
      case Record(maxLen, encrypted, record) =>
        var c := Config(n, maxLen, encrypted);
        AcceptRecordKeepsValid(c, s.ring, record);
        var (ring, error) := AcceptRecord(c, s.ring, record);
        s.(ring := ring, error := error)
      case Take =>
        if s.ring.CurrentComplete() then
          NextKeepsValid(n, s.ring);
          s.(ring := s.ring.Next(), delivered := s.delivered + [s.ring.slots[s.ring.readSeq].data])
        else s
  }

  function Run(n: nat, s: State, events: seq<Event>): (s': State)
    requires s.Valid(n)
    ensures s'.Valid(n)
    decreases |events|
  {
    if events == [] then s else Run(n, Step(n, s, events[0]), events[1..])
  }

  function Start(readSeq: nat): State {
    State(Ring(readSeq, map[]), [], None)
  }

  /** raw is a message with this number, as one unfragmented handshake fragment. */
  ghost predicate Unfragmented(raw: seq<byte>, msgSeq: nat) {
    && |raw| >= HEADER_LENGTH
    && var h := ParseHeader(raw[..HEADER_LENGTH]);
       && h.msgSeq == msgSeq && h.fragOff == 0
       && h.msgLen == h.fragLen == |raw| - HEADER_LENGTH
  }

  /** The message delivered k-th carries the k-th number after the first one. */
  ghost predicate InOrder(first: nat, s: State) {
    && s.ring.readSeq == (first + |s.delivered|) % 0x10000
    && (forall k | 0 <= k < |s.delivered| :: Unfragmented(s.delivered[k], (first + k) % 0x10000))
  }

  /** Whatever arrives, messages come out once each, in order, without gaps and unfragmented. */
  lemma {:induction false} RunDeliversInOrder(n: nat, first: nat, s: State, events: seq<Event>)
    requires s.Valid(n) && InOrder(first, s)
    ensures InOrder(first, Run(n, s, events))
    decreases |events|
  {
    if events != [] {
      StepDeliversInOrder(n, first, s, events[0]);
      RunDeliversInOrder(n, first, Step(n, s, events[0]), events[1..]);
    }
  }

  lemma PartialIsUnfragmented(p: Partial, msgSeq: nat)
    requires p.Valid(msgSeq)
    ensures Unfragmented(p.data, msgSeq)
  {
    HeaderRoundTrip(p.Whole(msgSeq));
  }

  lemma RecordDeliversNothing(n: nat, s: State, e: Event)
    requires s.Valid(n) && (e.Take? ==> s.error.Some? || !s.ring.CurrentComplete())
    ensures Step(n, s, e).delivered == s.delivered && Step(n, s, e).ring.readSeq == s.ring.readSeq
  {
    if e.Record? {
      AcceptRecordKeepsValid(Config(n, e.maxLen, e.encrypted), s.ring, e.record);
    }
  }

  lemma DeliverInOrder(first: nat, s: State, s': State, raw: seq<byte>)
    requires InOrder(first, s) && Unfragmented(raw, s.ring.readSeq)
    requires s'.delivered == s.delivered + [raw] && s'.ring.readSeq == (s.ring.readSeq + 1) % 0x10000
    ensures InOrder(first, s')
  {
  }

  lemma StepDeliversInOrder(n: nat, first: nat, s: State, e: Event)
    requires s.Valid(n) && InOrder(first, s)
    ensures InOrder(first, Step(n, s, e))
  {
    if e.Take? && s.error.None? && s.ring.CurrentComplete() {
      PartialIsUnfragmented(s.ring.slots[s.ring.readSeq], s.ring.readSeq);
      DeliverInOrder(first, s, Step(n, s, e), s.ring.slots[s.ring.readSeq].data);
    } else {
      RecordDeliversNothing(n, s, e);
    }
  }

  /**
   The window test that ignores distant fragments lets one number too many through: a
   well-formed fragment of the message numbered exactly readSeq + n is an error.
   */
  lemma FirstNumberPastTheWindow(c: Config, r: Ring, f: Fragment)
    requires f.Fits() && r.Valid(c.n) && !c.encrypted
    requires f.header.fragOff + f.header.fragLen <= f.header.msgLen <= c.maxLen
    ensures Accept(c, r, f) == (r, Some(OutsideWindow)) <==> f.header.msgSeq == r.readSeq + c.n
  {
  }

  // How much is stored

  /** At most n messages, none longer than this. */
  ghost predicate Bounded(n: nat, limit: nat, r: Ring) {
    |r.slots| <= n && forall s | s in r.slots :: |r.slots[s].data| <= 12 + limit
  }

  lemma {:induction false} WindowIsSmall(n: nat, lo: nat, numbers: set<nat>)
    requires forall s | s in numbers :: lo <= s < lo + n
    ensures |numbers| <= n
    decreases n
  {
    if n == 0 {
      assert numbers == {};
    } else {
      var last := lo + n - 1;
      WindowIsSmall(n - 1, lo, numbers - {last});
      assert numbers <= (numbers - {last}) + {last};
    }
  }

  ghost predicate AllWithin(limit: nat, r: Ring) {
    forall s | s in r.slots :: r.slots[s].msgLen <= limit
  }

  lemma AcceptKeepsWithin(c: Config, limit: nat, r: Ring, f: Fragment)
    requires f.Fits() && r.Valid(c.n) && AllWithin(limit, r) && c.maxLen <= limit
    ensures AllWithin(limit, Accept(c, r, f).0)
  {
    hide Header.Bytes;
  }

  lemma {:induction false} RecordKeepsWithin(c: Config, limit: nat, r: Ring, record: seq<byte>)
    requires r.Valid(c.n) && AllWithin(limit, r) && c.maxLen <= limit
    ensures AllWithin(limit, AcceptRecord(c, r, record).0)
    decreases |record|
  {
    var parsed := ParseFragment(record);
    if record != [] && parsed.Some? {
      hide Accept, AllWithin, Ring.Valid;
      var (f, rest) := parsed.value;
      ParseFragmentExact(record, f, rest);
      AcceptKeepsValid(c, r, f);
      AcceptKeepsWithin(c, limit, r, f);
      RecordKeepsWithin(c, limit, Accept(c, r, f).0, rest);
    }
  }

  lemma StepKeepsWithin(n: nat, limit: nat, s: State, e: Event)
    requires s.Valid(n) && AllWithin(limit, s.ring) && (e.Record? ==> e.maxLen <= limit)
    ensures AllWithin(limit, Step(n, s, e).ring)
  {
    hide AcceptRecord;
    if e.Record? {
      RecordKeepsWithin(Config(n, e.maxLen, e.encrypted), limit, s.ring, e.record);
    }
  }

  /**
   Main result: as long as no record is taken with a larger limit, nothing longer than the
   limit is ever stored, and never more than n messages, whatever the peer sends.
   */
  lemma {:induction false} StorageIsBounded(n: nat, limit: nat, s: State, events: seq<Event>)
    requires s.Valid(n) && AllWithin(limit, s.ring) && forall e | e in events && e.Record? :: e.maxLen <= limit
    ensures Bounded(n, limit, Run(n, s, events).ring)
    decreases |events|
  {
    if events == [] {
      WindowIsSmall(n, s.ring.readSeq, s.ring.slots.Keys);
      assert |s.ring.slots| == |s.ring.slots.Keys|;
    } else {
      hide Step, State.Valid, AllWithin;
      assert events[0] in events;
      StepKeepsWithin(n, limit, s, events[0]);
      StorageIsBounded(n, limit, Step(n, s, events[0]), events[1..]);
    }
  }
}
