/**
 The sending half of the DTLS handshake transport (d1_both.cc from add_outgoing on): a
 flight is queued, packed into datagrams no larger than the MTU, resumed after the
 transport refused a datagram, and sent again from the start on a timeout.
 */
module FlightSender {
  import opened Bits
  import opened Wrappers
  import opened Wire
  import opened RecordLayer
  import opened FlightPlan
  import opened RetransmitTimer
  import E = EndToEnd

  const DEFAULT_MTU: nat := 1500 - 28

  datatype SealResult = SealError | NoProgress | SealPartial | SealSuccess

  /** The datagram transport; unless it is willing, it may refuse a datagram. */
  class Bio {
    const willing: bool
    ghost var log: seq<seq<byte>>

    constructor (willing: bool)
      ensures log == [] && this.willing == willing
    {
      this.willing, log := willing, [];
    }

    method Write(packet: seq<byte>) returns (ret: int)
      modifies this
      ensures log == if ret > 0 then old(log) + [packet] else old(log)
      ensures willing ==> ret > 0
    {
      ret := *;
      if willing && ret <= 0 {
        ret := 1;
      }
      if ret > 0 {
        log := log + [packet];
      }
    }

    method Flush() returns (ret: int)
      ensures willing ==> ret > 0
    {
      ret := *;
      if willing && ret <= 0 {
        ret := 1;
      }
    }
  }

  // What one call seals

  /** Whether a message belongs to the last epoch; it can belong to no older one. */
  function UsesPrevious(w: Writer, msg: Outgoing): (previous: Option<bool>)
    ensures previous == Some(true) ==> w.epoch >= 1
  {
    if w.epoch >= 1 && msg.epoch == w.epoch - 1 then Some(true)
    else if msg.epoch != w.epoch then None
    else Some(false)
  }

  /** There is room for a ChangeCipherSpec, or for a byte of a message. */
  predicate HasRoom(msg: Outgoing, aead: Aead, room: nat) {
    var overhead := RECORD_HEADER_LENGTH + aead.maxOverhead;
    if msg.isCcs then room >= 1 + overhead
    else room >= HEADER_LENGTH + 1 + overhead && room >= RECORD_HEADER_LENGTH + aead.nonceLen
  }

  /** As much of the next message as fits. */
  function PieceFor(flight: seq<Outgoing>, c: Cursor, aead: Aead, room: nat): Piece
    requires WellFormedFlight(flight) && CursorOk(flight, c) && c.written < |flight|
    requires HasRoom(flight[c.written], aead, room)
  {
    if flight[c.written].isCcs then Ccs(c.written)
    else
      var body := flight[c.written].Body();
      var most := room - HEADER_LENGTH - RECORD_HEADER_LENGTH - aead.maxOverhead;
      var todo := if |body| - c.offset > most then most else |body| - c.offset;
      Part(c.written, c.offset, body[c.offset..c.offset + todo])
  }

  function KindOf(p: Piece): byte {
    if p.Ccs? then CHANGE_CIPHER_SPEC else HANDSHAKE
  }

  /** The plaintext of the record that carries a piece. */
  function PlaintextOf(flight: seq<Outgoing>, p: Piece): seq<byte>
    requires WellFormedFlight(flight) && (p.Part? ==> p.index < |flight| && !flight[p.index].isCcs)
  {
    if p.Ccs? then [1] else FragmentOf(flight, p).Bytes()
  }

  /** A piece is sealed, there is no room for one, or sealing is refused. */
  datatype Attempt = Refused(after: Writer) | Full | Made(piece: Piece, record: Sealed, after: Writer)

  function AttemptAt(flight: seq<Outgoing>, c: Cursor, w: Writer, room: nat): Attempt
    requires WellFormedFlight(flight) && CursorOk(flight, c) && c.written < |flight|
  {
    match UsesPrevious(w, flight[c.written])
    case None => Refused(w)
    case Some(previous) =>
      if !HasRoom(flight[c.written], w.AeadFor(previous), room) then Full
      else
        var p := PieceFor(flight, c, w.AeadFor(previous), room);
        var kind, plaintext := KindOf(p), PlaintextOf(flight, p);
        var after := if w.Encrypts(room, kind, plaintext, previous) then w.Counted(previous) else w;
        if !w.Seals(room, kind, plaintext, previous) then Refused(after)
        else Made(p, w.Record(room, kind, plaintext, previous), after)
  }

  /** The record carries the piece, in the epoch of its message. */
  ghost predicate Carries(flight: seq<Outgoing>, r: Sealed, p: Piece)
    requires WellFormedFlight(flight)
  {
    && p.index < |flight| && (p.Part? ==> !flight[p.index].isCcs) && r.epoch == flight[p.index].epoch
    && r.kind == KindOf(p) && r.plaintext == PlaintextOf(flight, p)
  }

  lemma RecordLength(w: Writer, room: nat, kind: byte, plaintext: seq<byte>, previous: bool)
    requires (previous ==> w.epoch >= 1) && w.Seals(room, kind, plaintext, previous)
    ensures RECORD_HEADER_LENGTH <= |w.Record(room, kind, plaintext, previous).wire| <= room
  {
    hide HeaderBytes, SequenceBytes;
  }

  lemma AttemptUnfolds(flight: seq<Outgoing>, c: Cursor, w: Writer, room: nat)
    requires WellFormedFlight(flight) && CursorOk(flight, c) && c.written < |flight|
    ensures var attempt, previous := AttemptAt(flight, c, w, room), UsesPrevious(w, flight[c.written]);
            if previous.None? then attempt == Refused(w)
            else if !HasRoom(flight[c.written], w.AeadFor(previous.value), room) then attempt == Full
            else
              var p := PieceFor(flight, c, w.AeadFor(previous.value), room);
              var (kind, plaintext) := (KindOf(p), PlaintextOf(flight, p));
              if w.Seals(room, kind, plaintext, previous.value) then
                && w.Encrypts(room, kind, plaintext, previous.value)
                && attempt == Made(p, w.Record(room, kind, plaintext, previous.value), w.Counted(previous.value))
              else attempt == Refused(if w.Encrypts(room, kind, plaintext, previous.value) then w.Counted(previous.value) else w)
    ensures flight[c.written].isCcs ==> c.offset == 0 && Next(flight, c, Ccs(c.written)) == Some(Cursor(c.written + 1, 0))
  {
  }

  /** The next piece as a record of its own epoch, by the fields of message, counters and AEAD. */
  ghost predicate SealedInEpoch(flight: seq<Outgoing>, c: Cursor, room: nat, version: nat, aead: Aead, number: nat,
                                after: Writer, attempt: Attempt)
    requires WellFormedFlight(flight) && CursorOk(flight, c) && c.written < |flight|
  {
    var msg, overhead := flight[c.written], 13 + aead.maxOverhead;
    if msg.isCcs && room < overhead + 1 then attempt == Full
    else if !msg.isCcs && (room < overhead + 12 + 1 || room < 13 + aead.nonceLen) then attempt == Full
    else
      var body := if msg.isCcs then [] else msg.Body();
      var todo := if |body| - c.offset <= room - overhead - 12 then |body| - c.offset else room - overhead - 12;
      var p := if msg.isCcs then Ccs(c.written) else Part(c.written, c.offset, body[c.offset..c.offset + todo]);
      var kind: byte := if msg.isCcs then 20 else 22;
      var plaintext :=
        if msg.isCcs then [1]
        else
          var whole := msg.Whole().header;
          Header(whole.msgType, whole.msgLen, whole.msgSeq, c.offset, todo).Bytes() + body[c.offset..c.offset + todo];
      var ciphertext := aead.seal(kind, version, BigEndian(msg.epoch, 2) + BigEndian(number, 6), plaintext);
      if ciphertext.Some? && |ciphertext.value| <= room - 13 && |ciphertext.value| < 0x10000 && number + 1 < 0x1_0000_0000_0000
      then
        var wire := [kind] + BigEndian(version, 2) + (BigEndian(msg.epoch, 2) + BigEndian(number, 6))
                    + BigEndian(|ciphertext.value|, 2) + ciphertext.value;
        attempt == Made(p, Sealed(msg.epoch, number, kind, plaintext, wire), after)
      else attempt.Refused?
  }

  /**
   The epoch a message was queued in decides: in the current one it is sealed with the current
   keys and counter, in the one before with the previous ones, and otherwise not at all.
   */
  lemma EpochDecides(flight: seq<Outgoing>, c: Cursor, w: Writer, room: nat)
    requires WellFormedFlight(flight) && CursorOk(flight, c) && c.written < |flight|
    ensures var msg, attempt := flight[c.written], AttemptAt(flight, c, w, room);
            && (msg.epoch == w.epoch ==>
                  SealedInEpoch(flight, c, room, w.aead.version, w.aead, w.current, w.(current := w.current + 1), attempt))
            && (msg.epoch + 1 == w.epoch ==>
                  SealedInEpoch(flight, c, room, w.aead.version, w.lastAead, w.last, w.(last := w.last + 1), attempt))
            && (msg.epoch != w.epoch && msg.epoch + 1 != w.epoch ==> attempt == Refused(w))
  {
    hide Outgoing.WellFormed, Outgoing.Body, Outgoing.Whole, Header.Bytes, BigEndian;
  }

  /** When nothing can be sealed, nothing has changed. */
  lemma NothingToSeal(flight: seq<Outgoing>, c: Cursor, w: Writer, room: nat, log: seq<Sealed>)
    requires WellFormedFlight(flight) && CursorOk(flight, c) && c.written < |flight|
    ensures var attempt, previous := AttemptAt(flight, c, w, room), UsesPrevious(w, flight[c.written]);
            && (previous.None? ==> Reported(flight, c, attempt, SealError, c, log, log, []) && AfterAttempt(attempt, w) == w)
            && (previous.Some? && !HasRoom(flight[c.written], w.AeadFor(previous.value), room) ==>
                  Reported(flight, c, attempt, NoProgress, c, log, log, []) && AfterAttempt(attempt, w) == w)
  {
    hide PieceFor, HasRoom, Writer.Encrypts, Writer.Seals, Writer.Record, Writer.Counted, KindOf, PlaintextOf;
  }

  lemma PieceIsNext(flight: seq<Outgoing>, c: Cursor, aead: Aead, room: nat)
    requires WellFormedFlight(flight) && CursorOk(flight, c) && c.written < |flight|
    requires HasRoom(flight[c.written], aead, room)
    ensures var p := PieceFor(flight, c, aead, room);
            Next(flight, c, p).Some? && p.index == c.written && (p.Part? ==> !flight[p.index].isCcs)
  {
    hide Outgoing.Body;
  }

  /** What is sealed is the next piece of the walk, and fits. */
  lemma AttemptAdvances(flight: seq<Outgoing>, c: Cursor, w: Writer, room: nat)
    requires WellFormedFlight(flight) && CursorOk(flight, c) && c.written < |flight|
    ensures match AttemptAt(flight, c, w, room)
            case Made(p, r, _) => Next(flight, c, p).Some? && Carries(flight, r, p) && 0 < |r.wire| <= room
            case _ => true
  {
    AttemptUnfolds(flight, c, w, room);
    hide AttemptAt, PieceFor, PlaintextOf, Next, CursorOk, Writer.Seals, Writer.Encrypts;
    var previous := UsesPrevious(w, flight[c.written]);
    if previous.Some? && HasRoom(flight[c.written], w.AeadFor(previous.value), room) {
      PieceIsNext(flight, c, w.AeadFor(previous.value), room);
      var p := PieceFor(flight, c, w.AeadFor(previous.value), room);
      if w.Seals(room, KindOf(p), PlaintextOf(flight, p), previous.value) {
        RecordLength(w, room, KindOf(p), PlaintextOf(flight, p), previous.value);
      }
    }
  }

  /** What sealing reports, where it leaves the cursor and the log, and what it has written, agree with the attempt. */
  ghost predicate Reported(flight: seq<Outgoing>, c: Cursor, attempt: Attempt, result: SealResult, c': Cursor,
                           log: seq<Sealed>, log': seq<Sealed>, written: seq<byte>)
    requires WellFormedFlight(flight)
  {
    match attempt
    case Refused(_) => result == SealError && c' == c && log' == log
    case Full => result == NoProgress && c' == c && log' == log
    case Made(p, r, _) => Follows(flight, c, p, result, c') && log' == log + [r] && written == r.wire
  }

  /** The cursor moves on inside the message, or is about to leave it. */
  ghost predicate Follows(flight: seq<Outgoing>, c: Cursor, p: Piece, result: SealResult, c': Cursor)
    requires WellFormedFlight(flight)
  {
    && (result == SealSuccess || result == SealPartial) && (result == SealSuccess ==> c'.offset == 0)
    && c'.written == c.written
    && Next(flight, c, p) == Some(if result == SealSuccess then Cursor(c.written + 1, 0) else c')
  }

  lemma CcsIsNext(flight: seq<Outgoing>, c: Cursor, aead: Aead, room: nat)
    requires WellFormedFlight(flight) && CursorOk(flight, c) && c.written < |flight| && flight[c.written].isCcs
    requires HasRoom(flight[c.written], aead, room)
    ensures var p := PieceFor(flight, c, aead, room);
            && KindOf(p) == CHANGE_CIPHER_SPEC && PlaintextOf(flight, p) == [1] && Follows(flight, c, p, SealSuccess, c)
  {
  }

  /** The counters after an attempt. */
  function AfterAttempt(attempt: Attempt, w: Writer): Writer {
    if attempt.Full? then w else attempt.after
  }

  // What one datagram holds

  /** The pieces and records of a datagram, where they leave cursor and counters, and whether sealing was refused. */
  datatype Packet = Packet(pieces: seq<Piece>, records: seq<Sealed>, here: Cursor, after: Writer, refused: bool) {
    predicate Succeeds() {
      !refused && pieces != []
    }

    function After(p: Piece, r: Sealed): Packet {
      this.(pieces := [p] + pieces, records := [r] + records)
    }

    /** The datagram with this much already in it. */
    function Behind(ps: seq<Piece>, rs: seq<Sealed>): Packet {
      this.(pieces := ps + pieces, records := rs + records)
    }
  }

  function PacketAt(flight: seq<Outgoing>, c: Cursor, w: Writer, room: nat): Packet
    requires WellFormedFlight(flight) && CursorOk(flight, c)
    decreases |flight| - c.written
  {
    if c.written == |flight| then Packet([], [], c, w, false)
    else match AttemptAt(flight, c, w, room)
      case Refused(after) => Packet([], [], c, after, true)
      case Full => Packet([], [], c, w, false)
      case Made(p, r, after) =>
        AttemptAdvances(flight, c, w, room);
        NextIsOk(flight, c, p);
        var c' := Next(flight, c, p).value;
        if c'.written == c.written then Packet([p], [r], c', after, false)
        else PacketAt(flight, c', after, room - |r.wire|).After(p, r)
  }

  /** Records laid end to end, as in a datagram. */
  ghost function Wires(rs: seq<Sealed>): seq<byte> {
    if rs == [] then [] else Wires(rs[..|rs| - 1]) + rs[|rs| - 1].wire
  }

  lemma {:induction false} WiresConcat(a: seq<Sealed>, b: seq<Sealed>)
    ensures Wires(a + b) == Wires(a) + Wires(b)
    decreases |b|
  {
    if b == [] {
      assert a + b == a;
    } else {
      LastOfConcat(a, b);
      WiresConcat(a, b[..|b| - 1]);
    }
  }

  lemma WiresAppend(a: seq<Sealed>, r: Sealed)
    ensures Wires(a + [r]) == Wires(a) + r.wire
  {
    assert (a + [r])[..|a|] == a;
  }

  ghost predicate CarriesAll(flight: seq<Outgoing>, rs: seq<Sealed>, ps: seq<Piece>)
    requires WellFormedFlight(flight)
  {
    |rs| == |ps| && forall k | 0 <= k < |rs| :: Carries(flight, rs[k], ps[k])
  }

  /** What the pieces and records of a datagram have to do with each other and with the cursor. */
  ghost predicate Walks(flight: seq<Outgoing>, c: Cursor, packet: Packet, room: nat)
    requires WellFormedFlight(flight)
  {
    && Walk(flight, c, packet.pieces) == Some(packet.here) && CursorOk(flight, packet.here)
    && CarriesAll(flight, packet.records, packet.pieces)
    && |Wires(packet.records)| <= room
    && if packet.pieces == [] then packet.here == c else c.Before(packet.here)
  }

  lemma WalkOne(flight: seq<Outgoing>, c: Cursor, p: Piece)
    requires WellFormedFlight(flight)
    ensures Walk(flight, c, [p]) == Next(flight, c, p)
  {
    assert [p][..0] == [];
  }

  lemma WiresOne(r: Sealed)
    ensures Wires([r]) == r.wire
  {
    assert [r][..0] == [];
  }

  lemma WalksFurther(flight: seq<Outgoing>, c: Cursor, p: Piece, r: Sealed, rest: Packet, room: nat)
    requires WellFormedFlight(flight) && Next(flight, c, p).Some? && Carries(flight, r, p) && |r.wire| <= room
    requires Walks(flight, Next(flight, c, p).value, rest, room - |r.wire|)
    ensures Walks(flight, c, rest.After(p, r), room)
  {
    hide Carries, Next, CursorOk;
    WalkOne(flight, c, p);
    WalkConcat(flight, c, [p], rest.pieces);
    WiresOne(r);
    WiresConcat([r], rest.records);
    NextAdvances(flight, c, p);
  }

  lemma NothingWalks(flight: seq<Outgoing>, c: Cursor, w: Writer, room: nat, refused: bool)
    requires WellFormedFlight(flight) && CursorOk(flight, c)
    ensures Walks(flight, c, Packet([], [], c, w, refused), room)
  {
  }

  /** A datagram that a record ends, and one that goes on after it. */
  lemma PacketUnfolds(flight: seq<Outgoing>, c: Cursor, w: Writer, room: nat)
    requires WellFormedFlight(flight) && CursorOk(flight, c) && c.written < |flight|
    ensures var packet, attempt := PacketAt(flight, c, w, room), AttemptAt(flight, c, w, room);
            match attempt
            case Refused(after) => packet == Packet([], [], c, after, true)
            case Full => packet == Packet([], [], c, w, false)
            case Made(p, r, after) =>
              && Next(flight, c, p).Some? && CursorOk(flight, Next(flight, c, p).value)
              && Carries(flight, r, p) && 0 < |r.wire| <= room
              && c.written <= Next(flight, c, p).value.written
              && packet == (if Next(flight, c, p).value.written == c.written then
                              Packet([], [], Next(flight, c, p).value, after, false)
                            else PacketAt(flight, Next(flight, c, p).value, after, room - |r.wire|)).After(p, r)
  {
    hide AttemptAt, Carries;
    AttemptAdvances(flight, c, w, room);
    var attempt := AttemptAt(flight, c, w, room);
    if attempt.Made? {
      NextIsOk(flight, c, attempt.piece);
      assert [attempt.piece] + [] == [attempt.piece] && [attempt.record] + [] == [attempt.record];
    }
  }

  /** What an attempt adds to a datagram that has something in it. */
  lemma PacketGrows(flight: seq<Outgoing>, c: Cursor, w: Writer, room: nat, ps: seq<Piece>, rs: seq<Sealed>)
    requires WellFormedFlight(flight) && CursorOk(flight, c) && c.written < |flight|
    ensures var packet := PacketAt(flight, c, w, room).Behind(ps, rs);
            match AttemptAt(flight, c, w, room)
            case Refused(after) => packet == Packet(ps, rs, c, after, true)
            case Full => packet == Packet(ps, rs, c, w, false)
            case Made(p, r, after) =>
              && Next(flight, c, p).Some? && CursorOk(flight, Next(flight, c, p).value) && |r.wire| <= room
              && packet == if Next(flight, c, p).value.written == c.written then
                             Packet(ps + [p], rs + [r], Next(flight, c, p).value, after, false)
                           else PacketAt(flight, Next(flight, c, p).value, after, room - |r.wire|).Behind(ps + [p], rs + [r])
  {
    hide AttemptAt, Next, CursorOk, Carries, WellFormedFlight, PacketAt;
    PacketUnfolds(flight, c, w, room);
    var attempt := AttemptAt(flight, c, w, room);
    if attempt.Made? {
      var c' := Next(flight, c, attempt.piece).value;
      var rest := if c'.written == c.written then Packet([], [], c', attempt.after, false)
                  else PacketAt(flight, c', attempt.after, room - |attempt.record.wire|);
      assert ps + ([attempt.piece] + rest.pieces) == ps + [attempt.piece] + rest.pieces;
      assert rs + ([attempt.record] + rest.records) == rs + [attempt.record] + rest.records;
    }
    assert ps + [] == ps && rs + [] == rs;
  }

  lemma NothingBehind(packet: Packet)
    ensures packet.Behind([], []) == packet && Wires([]) == []
  {
    assert [] + packet.pieces == packet.pieces && [] + packet.records == packet.records;
  }

  lemma PacketEnds(flight: seq<Outgoing>, c: Cursor, w: Writer, room: nat, ps: seq<Piece>, rs: seq<Sealed>)
    requires WellFormedFlight(flight) && CursorOk(flight, c) && c.written == |flight|
    ensures PacketAt(flight, c, w, room).Behind(ps, rs) == Packet(ps, rs, c, w, false)
  {
    assert ps + [] == ps && rs + [] == rs;
  }

  lemma {:induction false} PacketWalks(flight: seq<Outgoing>, c: Cursor, w: Writer, room: nat)
    requires WellFormedFlight(flight) && CursorOk(flight, c)
    ensures Walks(flight, c, PacketAt(flight, c, w, room), room)
    decreases |flight| - c.written
  {
    if c.written == |flight| {
      NothingWalks(flight, c, w, room, false);
    } else {
      assert c.written < |flight|;
      hide AttemptAt, Next, CursorOk, Carries, Walks, WellFormedFlight, PacketAt, Packet.After;
      PacketUnfolds(flight, c, w, room);
      match AttemptAt(flight, c, w, room)
      case Refused(after) =>
        NothingWalks(flight, c, after, room, true);
      case Full =>
        NothingWalks(flight, c, w, room, false);
      case Made(p, r, after) =>
        var c' := Next(flight, c, p).value;
        if c'.written == c.written {
          NothingWalks(flight, c', after, room - |r.wire|, false);
          WalksFurther(flight, c, p, r, Packet([], [], c', after, false), room);
        } else {
          PacketWalks(flight, c', after, room - |r.wire|);
          WalksFurther(flight, c, p, r, PacketAt(flight, c', after, room - |r.wire|), room);
        }
    }
  }

  /** The record comes from an attempt by a writer with these keys. */
  ghost predicate AttemptedAt(flight: seq<Outgoing>, c: Cursor, w: Writer, keys: Writer, room: nat, most: nat, r: Sealed)
    requires WellFormedFlight(flight)
  {
    && CursorOk(flight, c) && c.written < |flight| && room <= most
    && w == keys.(last := w.last, current := w.current)
    && AttemptAt(flight, c, w, room).Made? && AttemptAt(flight, c, w, room).record == r
  }

  ghost predicate Attempted(flight: seq<Outgoing>, keys: Writer, most: nat, r: Sealed)
    requires WellFormedFlight(flight)
  {
    exists c, w, room :: AttemptedAt(flight, c, w, keys, room, most, r)
  }

  ghost predicate AllAttempted(flight: seq<Outgoing>, keys: Writer, most: nat, packet: Packet)
    requires WellFormedFlight(flight)
  {
    forall r | r in packet.records :: Attempted(flight, keys, most, r)
  }

  lemma OneMoreAttempted(flight: seq<Outgoing>, keys: Writer, most: nat, p: Piece, r: Sealed, rest: Packet)
    requires WellFormedFlight(flight) && Attempted(flight, keys, most, r) && AllAttempted(flight, keys, most, rest)
    ensures AllAttempted(flight, keys, most, rest.After(p, r))
  {
    hide Attempted;
  }

  lemma KeysStay(flight: seq<Outgoing>, c: Cursor, w: Writer, room: nat)
    requires WellFormedFlight(flight) && CursorOk(flight, c) && c.written < |flight|
    ensures var attempt := AttemptAt(flight, c, w, room);
            attempt.Made? ==> attempt.after == w.(last := attempt.after.last, current := attempt.after.current)
  {
    AttemptUnfolds(flight, c, w, room);
    hide AttemptAt, Writer.Seals, Writer.Encrypts, Writer.Record;
  }

  lemma AttemptedWithin(flight: seq<Outgoing>, keys: Writer, w: Writer, most: nat, less: nat, packet: Packet)
    requires WellFormedFlight(flight) && AllAttempted(flight, w, less, packet) && less <= most
    requires w == keys.(last := w.last, current := w.current)
    ensures AllAttempted(flight, keys, most, packet)
  {
    hide AttemptAt, CursorOk;
    forall r | r in packet.records
      ensures Attempted(flight, keys, most, r)
    {
      assert Attempted(flight, w, less, r);
      var c, w', room :| AttemptedAt(flight, c, w', w, room, less, r);
      assert AttemptedAt(flight, c, w', keys, room, most, r);
    }
  }

  lemma {:induction false} PacketIsAttempted(flight: seq<Outgoing>, c: Cursor, w: Writer, room: nat)
    requires WellFormedFlight(flight) && CursorOk(flight, c)
    ensures AllAttempted(flight, w, room, PacketAt(flight, c, w, room))
    decreases |flight| - c.written
  {
    hide AttemptAt, CursorOk, Carries, AllAttempted, Attempted, WellFormedFlight, PacketAt, Packet.After;
    if c.written < |flight| && AttemptAt(flight, c, w, room).Made? {
      hide Next;
      PacketUnfolds(flight, c, w, room);
      KeysStay(flight, c, w, room);
      var attempt := AttemptAt(flight, c, w, room);
      FirstIsAttempted(flight, c, w, room);
      var c' := Next(flight, c, attempt.piece).value;
      if c'.written == c.written {
        NoneAttempted(flight, w, room, c', attempt.after);
        OneMoreAttempted(flight, w, room, attempt.piece, attempt.record, Packet([], [], c', attempt.after, false));
      } else {
        var less := room - |attempt.record.wire|;
        var rest := PacketAt(flight, c', attempt.after, less);
        PacketIsAttempted(flight, c', attempt.after, less);
        AttemptedWithin(flight, w, attempt.after, room, less, rest);
        OneMoreAttempted(flight, w, room, attempt.piece, attempt.record, rest);
      }
    } else {
      EmptyIsAttempted(flight, c, w, room);
    }
  }

  lemma EmptyIsAttempted(flight: seq<Outgoing>, c: Cursor, w: Writer, room: nat)
    requires WellFormedFlight(flight) && CursorOk(flight, c)
    requires c.written < |flight| ==> !AttemptAt(flight, c, w, room).Made?
    ensures AllAttempted(flight, w, room, PacketAt(flight, c, w, room))
  {
    hide AttemptAt;
  }

  lemma FirstIsAttempted(flight: seq<Outgoing>, c: Cursor, w: Writer, room: nat)
    requires WellFormedFlight(flight) && CursorOk(flight, c) && c.written < |flight| && AttemptAt(flight, c, w, room).Made?
    ensures Attempted(flight, w, room, AttemptAt(flight, c, w, room).record)
  {
    hide AttemptAt, CursorOk;
    assert AttemptedAt(flight, c, w, w, room, room, AttemptAt(flight, c, w, room).record);
  }

  lemma NoneAttempted(flight: seq<Outgoing>, w: Writer, room: nat, c: Cursor, after: Writer)
    requires WellFormedFlight(flight)
    ensures AllAttempted(flight, w, room, Packet([], [], c, after, false))
  {
  }

  // When sealing cannot be refused

  /** An AEAD that encrypts whatever it is given. */
  ghost predicate Total(aead: Aead) {
    forall k: byte, v: nat, s: seq<byte>, p: seq<byte> :: aead.seal(k, v, s, p).Some?
  }

  /**
   The message is of the current or the previous epoch, whose AEAD encrypts everything, with
   room for it in an empty datagram.
   */
  ghost predicate Sendable(w: Writer, msg: Outgoing, mtu: nat) {
    && (msg.epoch == w.epoch || (w.epoch >= 1 && msg.epoch == w.epoch - 1))
    && var aead := if msg.epoch == w.epoch then w.aead else w.lastAead;
       && aead.Valid() && Total(aead)
       && if msg.isCcs then mtu >= 13 + aead.maxOverhead + 1
          else mtu >= 13 + aead.maxOverhead + 12 + 1 && mtu >= 13 + aead.nonceLen
  }

  /** As many records as what is left of a flight can need. */
  function RecordsLeft(flight: seq<Outgoing>, c: Cursor): nat
    requires WellFormedFlight(flight) && CursorOk(flight, c)
    decreases |flight| - c.written
  {
    if c.written == |flight| then 0
    else 1 + (if flight[c.written].isCcs then 0 else |flight[c.written].Body()| - c.offset)
         + RecordsLeft(flight, Cursor(c.written + 1, 0))
  }

  /**
   Nothing in the way of sending what is left of a flight: every message can be sent, both
   counters have numbers left for it, and the MTU is too small for a record whose length
   would not fit into two bytes.
   */
  ghost predicate Smooth(flight: seq<Outgoing>, c: Cursor, w: Writer, mtu: nat)
    requires WellFormedFlight(flight) && CursorOk(flight, c)
  {
    && (forall k | c.written <= k < |flight| :: Sendable(w, flight[k], mtu))
    && w.last + RecordsLeft(flight, c) < MAX_NUMBER && w.current + RecordsLeft(flight, c) < MAX_NUMBER
    && mtu < RECORD_HEADER_LENGTH + 0x10000
  }

  lemma PieceLength(flight: seq<Outgoing>, c: Cursor, aead: Aead, room: nat)
    requires WellFormedFlight(flight) && CursorOk(flight, c) && c.written < |flight|
    requires HasRoom(flight[c.written], aead, room)
    ensures |PlaintextOf(flight, PieceFor(flight, c, aead, room))| + aead.maxOverhead + RECORD_HEADER_LENGTH <= room
  {
    hide Outgoing.Body, Header.Bytes;
  }

  /** One step of a smooth flight is never refused, and leaves the flight smooth. */
  lemma SmoothAttempt(flight: seq<Outgoing>, c: Cursor, w: Writer, mtu: nat, room: nat)
    requires WellFormedFlight(flight) && CursorOk(flight, c) && c.written < |flight| && room <= mtu
    requires Smooth(flight, c, w, mtu)
    ensures match AttemptAt(flight, c, w, room)
            case Refused(_) => false
            case Full => room < mtu
            case Made(p, r, after) =>
              && Next(flight, c, p).Some? && CursorOk(flight, Next(flight, c, p).value)
              && Smooth(flight, Next(flight, c, p).value, after, mtu)
  {
    AttemptAdvances(flight, c, w, room);
    var msg := flight[c.written];
    assert Sendable(w, msg, mtu);
    var previous := UsesPrevious(w, msg).value;
    var aead := w.AeadFor(previous);
    if HasRoom(msg, aead, room) {
      var p := PieceFor(flight, c, aead, room);
      PieceLength(flight, c, aead, room);
      SmoothRecord(w, room, KindOf(p), PlaintextOf(flight, p), previous);
      assert AttemptAt(flight, c, w, room)
          == Made(p, w.Record(room, KindOf(p), PlaintextOf(flight, p), previous), w.Counted(previous));
      NextIsOk(flight, c, p);
      NextNeedsFewer(flight, c, p);
      SendableStays(flight, c.written, w, previous, mtu);
      NextAdvances(flight, c, p);
    }
  }

  lemma SmoothRecord(w: Writer, room: nat, kind: byte, plaintext: seq<byte>, previous: bool)
    requires previous ==> w.epoch >= 1
    requires w.AeadFor(previous).Valid() && Total(w.AeadFor(previous))
    requires |plaintext| + w.AeadFor(previous).maxOverhead + RECORD_HEADER_LENGTH <= room < RECORD_HEADER_LENGTH + 0x10000
    requires w.NumberFor(previous) + 1 < MAX_NUMBER
    ensures w.Encrypts(room, kind, plaintext, previous) && w.Seals(room, kind, plaintext, previous)
  {
    hide SequenceBytes;
    var aead := w.AeadFor(previous);
    var s := SequenceBytes(w.EpochFor(previous), w.NumberFor(previous));
    assert aead.seal(kind, w.aead.version, s, plaintext).Some?;
  }

  lemma NextNeedsFewer(flight: seq<Outgoing>, c: Cursor, p: Piece)
    requires WellFormedFlight(flight) && CursorOk(flight, c) && Next(flight, c, p).Some?
    ensures CursorOk(flight, Next(flight, c, p).value)
    ensures RecordsLeft(flight, Next(flight, c, p).value) < RecordsLeft(flight, c)
  {
    NextIsOk(flight, c, p);
  }

  lemma SendableStays(flight: seq<Outgoing>, from: nat, w: Writer, previous: bool, mtu: nat)
    requires forall k | from <= k < |flight| :: Sendable(w, flight[k], mtu)
    ensures forall k | from <= k < |flight| :: Sendable(w.Counted(previous), flight[k], mtu)
  {
    forall k | from <= k < |flight|
      ensures Sendable(w.Counted(previous), flight[k], mtu)
    {
      assert Sendable(w, flight[k], mtu);
    }
  }

  /** A smooth flight fills datagram after datagram, and none is refused. */
  lemma {:induction false} SmoothPacket(flight: seq<Outgoing>, c: Cursor, w: Writer, mtu: nat, room: nat)
    requires WellFormedFlight(flight) && CursorOk(flight, c) && room <= mtu && Smooth(flight, c, w, mtu)
    ensures var packet := PacketAt(flight, c, w, room);
            && !packet.refused && CursorOk(flight, packet.here) && Smooth(flight, packet.here, packet.after, mtu)
            && (room == mtu && c.written < |flight| ==> packet.pieces != [])
    decreases |flight| - c.written
  {
    assert c.written <= |flight|;
    hide AttemptAt, Smooth, Next, CursorOk, PacketAt, Carries, WellFormedFlight;
    if c.written == |flight| {
      PacketEnds(flight, c, w, room, [], []);
      NothingBehind(PacketAt(flight, c, w, room));
    } else {
      SmoothAttempt(flight, c, w, mtu, room);
      PacketUnfolds(flight, c, w, room);
      var attempt := AttemptAt(flight, c, w, room);
      if attempt.Made? {
        var c' := Next(flight, c, attempt.piece).value;
        if c'.written != c.written {
          SmoothPacket(flight, c', attempt.after, mtu, room - |attempt.record.wire|);
        }
      }
    }
  }

  // Whether the rest of a flight can be sent

  function BytesLeft(flight: seq<Outgoing>, c: Cursor): nat
    requires WellFormedFlight(flight) && CursorOk(flight, c)
  {
    if c.written < |flight| && !flight[c.written].isCcs then |flight[c.written].Body()| - c.offset else 0
  }

  /** Datagram after datagram can be filled, to the end of the flight. */
  ghost predicate Flows(flight: seq<Outgoing>, c: Cursor, w: Writer, mtu: nat)
    requires WellFormedFlight(flight) && CursorOk(flight, c)
    decreases |flight| - c.written, BytesLeft(flight, c)
  {
    || c.written == |flight|
    || (PacketWalks(flight, c, w, mtu);
        var p := PacketAt(flight, c, w, mtu);
        p.Succeeds() && Flows(flight, p.here, p.after, mtu))
  }

  /** The first datagram that cannot be filled has something in it when sealing is refused. */
  ghost predicate Loses(flight: seq<Outgoing>, c: Cursor, w: Writer, mtu: nat)
    requires WellFormedFlight(flight) && CursorOk(flight, c)
    decreases |flight| - c.written, BytesLeft(flight, c)
  {
    && c.written < |flight|
    && (PacketWalks(flight, c, w, mtu);
        var p := PacketAt(flight, c, w, mtu);
        if p.Succeeds() then Loses(flight, p.here, p.after, mtu) else p.pieces != [])
  }

  /** One datagram further. */
  lemma FlowsOn(flight: seq<Outgoing>, c: Cursor, w: Writer, mtu: nat)
    requires WellFormedFlight(flight) && CursorOk(flight, c)
    ensures c.written == |flight| ==> Flows(flight, c, w, mtu) && !Loses(flight, c, w, mtu)
    ensures c.written < |flight| ==>
              var p := PacketAt(flight, c, w, mtu);
              && CursorOk(flight, p.here)
              && (p.Succeeds() ==>
                    && (Flows(flight, c, w, mtu) <==> Flows(flight, p.here, p.after, mtu))
                    && (Loses(flight, c, w, mtu) <==> Loses(flight, p.here, p.after, mtu)))
              && (!p.Succeeds() ==> !Flows(flight, c, w, mtu) && (Loses(flight, c, w, mtu) <==> p.pieces != []))
  {
    hide PacketAt, WellFormedFlight, CursorOk;
    PacketWalks(flight, c, w, mtu);
  }

  /** A smooth flight can be sent to its end, and one that can be sent to its end loses nothing. */
  lemma {:induction false} SmoothFlows(flight: seq<Outgoing>, c: Cursor, w: Writer, mtu: nat)
    requires WellFormedFlight(flight) && CursorOk(flight, c)
    ensures Smooth(flight, c, w, mtu) ==> Flows(flight, c, w, mtu)
    ensures Flows(flight, c, w, mtu) ==> !Loses(flight, c, w, mtu)
    decreases |flight| - c.written, BytesLeft(flight, c)
  {
    FlowsOn(flight, c, w, mtu);
    if c.written < |flight| {
      PacketWalks(flight, c, w, mtu);
      var p := PacketAt(flight, c, w, mtu);
      if Smooth(flight, c, w, mtu) {
        SmoothPacket(flight, c, w, mtu, mtu);
      }
      if p.Succeeds() {
        hide Smooth, Flows, Loses, PacketAt;
        SmoothFlows(flight, p.here, p.after, mtu);
      }
    }
  }

  /** The AEAD of the first epoch, which leaves everything as it is. */
  function NullSeal(kind: byte, version: nat, sequence: seq<byte>, plaintext: seq<byte>): Option<seq<byte>> {
    Some(plaintext)
  }

  const NULL_AEAD: Aead := Aead(0, 0, 0xfefd, NullSeal)

  lemma NullSealsAll()
    ensures NULL_AEAD.Valid() && Total(NULL_AEAD)
  {
  }

  /** In the first epoch a message for which there is room is sealed whole, unless it exceeds a record. */
  lemma NullAttempt(flight: seq<Outgoing>, i: nat, w: Writer, room: nat)
    requires WellFormedFlight(flight) && i < |flight| && !flight[i].isCcs && flight[i].epoch == w.epoch == 0
    requires w.aead == NULL_AEAD && w.current + 1 < MAX_NUMBER
    requires |flight[i].Body()| + HEADER_LENGTH + RECORD_HEADER_LENGTH <= room && HEADER_LENGTH + 1 + RECORD_HEADER_LENGTH <= room
    ensures CursorOk(flight, Cursor(i, 0))
    ensures var attempt, p := AttemptAt(flight, Cursor(i, 0), w, room), Part(i, 0, flight[i].Body());
            if |flight[i].Body()| + HEADER_LENGTH < 0x10000 then
              && attempt.Made? && attempt.piece == p && attempt.after == w.Counted(false)
              && |attempt.record.wire| == RECORD_HEADER_LENGTH + HEADER_LENGTH + |flight[i].Body()|
            else attempt.Refused?
  {
    hide Outgoing.WellFormed, Outgoing.Body, HeaderBytes, SequenceBytes;
    var body := flight[i].Body();
    assert body[0..|body|] == body;
    assert PieceFor(flight, Cursor(i, 0), NULL_AEAD, room) == Part(i, 0, body);
    FragmentLength(flight, Part(i, 0, body));
  }

  lemma SecondIsRefused(flight: seq<Outgoing>, w: Writer, mtu: nat)
    requires WellFormedFlight(flight) && |flight| >= 2 && flight[0].epoch == flight[1].epoch == w.epoch == 0
    requires !flight[0].isCcs && !flight[1].isCcs && w.aead == NULL_AEAD && w.current + 2 < MAX_NUMBER
    requires |flight[0].Body()| + HEADER_LENGTH < 0x10000 <= |flight[1].Body()| + HEADER_LENGTH
    requires |flight[0].Body()| + |flight[1].Body()| + 2 * (HEADER_LENGTH + RECORD_HEADER_LENGTH) <= mtu
    ensures var packet := PacketAt(flight, Cursor(0, 0), w, mtu);
            packet.refused && packet.pieces == [Part(0, 0, flight[0].Body())] && packet.here == Cursor(1, 0)
  {
    hide WellFormedFlight, Outgoing.Body, AttemptAt, PacketAt, Carries;
    NullAttempt(flight, 0, w, mtu);
    PacketUnfolds(flight, Cursor(0, 0), w, mtu);
    var attempt := AttemptAt(flight, Cursor(0, 0), w, mtu);
    NullAttempt(flight, 1, attempt.after, mtu - |attempt.record.wire|);
    PacketUnfolds(flight, Cursor(1, 0), attempt.after, mtu - |attempt.record.wire|);
  }

  /**
   Where sending goes wrong although the transport takes everything: with an MTU that lets a
   record grow beyond 16 bits of length, a short message and then one long enough, the second
   record of the datagram is refused after the cursor has moved past the first message.
   */
  lemma OversizedRecordLosesMessage(short: E.Message, long: E.Message, mtu: nat)
    requires |short.body| + HEADER_LENGTH < 0x10000 <= |long.body| + HEADER_LENGTH && |long.body| < 0x1000000
    requires |short.body| + |long.body| + 2 * (HEADER_LENGTH + RECORD_HEADER_LENGTH) <= mtu
    ensures NULL_AEAD.Valid() && Total(NULL_AEAD)
    ensures var flight := [Outgoing(short.Raw(0), 0, false), Outgoing(long.Raw(1), 0, false)];
            && WellFormedFlight(flight)
            && var packet := PacketAt(flight, Cursor(0, 0), Writer(0, 0, 0, NULL_AEAD, NULL_AEAD), mtu);
               && packet.refused && packet.pieces == [Part(0, 0, short.body)] && packet.here == Cursor(1, 0)
               && Loses(flight, Cursor(0, 0), Writer(0, 0, 0, NULL_AEAD, NULL_AEAD), mtu)
  {
    NullSealsAll();
    RawIsWellFormed(short, 0, 0);
    RawIsWellFormed(long, 1, 0);
    hide Outgoing.WellFormed, E.Message.Raw, PacketAt, Loses, Total, Aead.Valid;
    var flight := [Outgoing(short.Raw(0), 0, false), Outgoing(long.Raw(1), 0, false)];
    SecondIsRefused(flight, Writer(0, 0, 0, NULL_AEAD, NULL_AEAD), mtu);
    FlowsOn(flight, Cursor(0, 0), Writer(0, 0, 0, NULL_AEAD, NULL_AEAD), mtu);
  }

  lemma FragmentLength(flight: seq<Outgoing>, p: Piece)
    requires WellFormedFlight(flight) && p.Part? && p.index < |flight| && !flight[p.index].isCcs
    ensures |FragmentOf(flight, p).Bytes()| == HEADER_LENGTH + |p.body|
  {
  }

  // What has been sent

  /**
   What the transport has accepted since the cursor was last at the start of the flight, the
   records of each datagram, all pieces that were sealed, and those of them that were lost.
   */
  datatype Sent = Sent(pieces: seq<Piece>, batches: seq<seq<Sealed>>, packets: seq<seq<byte>>,
                       walked: seq<Piece>, lost: seq<Piece>) {
    function Accept(packet: Packet, bytes: seq<byte>): Sent {
      Sent(pieces + packet.pieces, batches + [packet.records], packets + [bytes], walked + packet.pieces, lost)
    }

    function Lose(packet: Packet): Sent {
      this.(walked := walked + packet.pieces, lost := lost + packet.pieces)
    }
  }

  const NOTHING_SENT: Sent := Sent([], [], [], [], [])

  ghost function Joined(batches: seq<seq<Sealed>>): seq<Sealed> {
    if batches == [] then [] else Joined(batches[..|batches| - 1]) + batches[|batches| - 1]
  }

  /** Every piece of message i that was sealed was sent or lost. */
  ghost predicate Accounted(sent: Sent, i: nat) {
    && |BytesOf(sent.walked, i)| == |BytesOf(sent.pieces, i)| + |BytesOf(sent.lost, i)|
    && CountOf(sent.walked, i) == CountOf(sent.pieces, i) + CountOf(sent.lost, i)
  }

  /**
   Each datagram is the wire form of its records, which carry the pieces sent; all that was
   sealed leads to the cursor, and only lost pieces are missing from what was sent.
   */
  ghost predicate SentOk(flight: seq<Outgoing>, here: Cursor, sent: Sent)
    requires WellFormedFlight(flight)
  {
    && |sent.packets| == |sent.batches|
    && (forall k | 0 <= k < |sent.packets| :: sent.packets[k] == Wires(sent.batches[k]))
    && CarriesAll(flight, Joined(sent.batches), sent.pieces)
    && Walk(flight, Cursor(0, 0), sent.walked) == Some(here)
    && (forall i: nat :: Accounted(sent, i))
    && (forall p | p in sent.lost :: Matters(flight, p))
    && (sent.lost == [] ==> sent.walked == sent.pieces)
  }

  ghost predicate FlightDelivered(flight: seq<Outgoing>, pieces: seq<Piece>)
    requires WellFormedFlight(flight)
  {
    forall i | 0 <= i < |flight| ::
      if flight[i].isCcs then CountOf(pieces, i) == 1
      else BytesOf(pieces, i) == flight[i].Body() && CountOf(pieces, i) >= 1
  }

  lemma NothingSentOk(flight: seq<Outgoing>)
    requires WellFormedFlight(flight)
    ensures SentOk(flight, Cursor(0, 0), NOTHING_SENT)
  {
  }

  lemma AccountedGrows(sent: Sent, packet: Packet, bytes: seq<byte>, i: nat)
    requires Accounted(sent, i)
    ensures Accounted(sent.Accept(packet, bytes), i) && Accounted(sent.Lose(packet), i)
  {
    hide BytesOf, CountOf;
    PiecesConcat(sent.walked, packet.pieces, i);
    PiecesConcat(sent.pieces, packet.pieces, i);
    PiecesConcat(sent.lost, packet.pieces, i);
  }

  lemma JoinedAppend(batches: seq<seq<Sealed>>, batch: seq<Sealed>)
    ensures Joined(batches + [batch]) == Joined(batches) + batch
  {
    assert (batches + [batch])[..|batches|] == batches;
  }

  lemma CarriesMore(flight: seq<Outgoing>, rs: seq<Sealed>, ps: seq<Piece>, rs': seq<Sealed>, ps': seq<Piece>)
    requires WellFormedFlight(flight) && CarriesAll(flight, rs, ps) && CarriesAll(flight, rs', ps')
    ensures CarriesAll(flight, rs + rs', ps + ps')
  {
    hide Carries;
  }

  lemma AcceptedOk(flight: seq<Outgoing>, before: Cursor, sent: Sent, packet: Packet, bytes: seq<byte>, room: nat)
    requires WellFormedFlight(flight) && SentOk(flight, before, sent)
    requires Walks(flight, before, packet, room) && bytes == Wires(packet.records)
    ensures SentOk(flight, packet.here, sent.Accept(packet, bytes))
  {
    hide Carries, Accounted, Matters, CursorOk, Wires, Joined, Walk, WellFormedFlight;
    forall i: nat
      ensures Accounted(sent.Accept(packet, bytes), i)
    {
      AccountedGrows(sent, packet, bytes, i);
    }
    JoinedAppend(sent.batches, packet.records);
    CarriesMore(flight, Joined(sent.batches), sent.pieces, packet.records, packet.pieces);
    WalkConcat(flight, Cursor(0, 0), sent.walked, packet.pieces);
  }

  lemma LostOk(flight: seq<Outgoing>, before: Cursor, sent: Sent, packet: Packet, room: nat)
    requires WellFormedFlight(flight) && CursorOk(flight, before) && SentOk(flight, before, sent)
    requires Walks(flight, before, packet, room)
    ensures SentOk(flight, packet.here, sent.Lose(packet))
  {
    hide Carries, Accounted, Matters, CursorOk;
    forall i: nat
      ensures Accounted(sent.Lose(packet), i)
    {
      AccountedGrows(sent, packet, [], i);
    }
    WalkConcat(flight, Cursor(0, 0), sent.walked, packet.pieces);
    WalkMatters(flight, before, packet.pieces);
    if packet.pieces == [] {
      assert sent.walked + packet.pieces == sent.walked;
    }
  }

  /** Pieces that were lost are missed: the flight is not delivered, not even when its end is reached. */
  lemma LostIsMissed(flight: seq<Outgoing>, here: Cursor, sent: Sent)
    requires WellFormedFlight(flight) && SentOk(flight, here, sent) && sent.lost != []
    ensures !FlightDelivered(flight, sent.pieces)
  {
    hide BytesOf, CountOf, Outgoing.Body;
    var p := sent.lost[0];
    var i := p.index;
    assert p in sent.lost && Matters(flight, p);
    PieceShows(flight, sent.lost, 0);
    WalkDelivers(flight, sent.walked, i);
    assert Accounted(sent, i);
  }

  /** At the end of a flight, all of it has been delivered exactly if nothing was lost. */
  lemma DeliveredIffNothingLost(flight: seq<Outgoing>, here: Cursor, sent: Sent)
    requires WellFormedFlight(flight) && CursorOk(flight, here) && here.written == |flight|
    requires SentOk(flight, here, sent)
    ensures here == Cursor(|flight|, 0)
    ensures FlightDelivered(flight, sent.pieces) <==> sent.lost == []
  {
    hide Accounted, Carries, Matters;
    if sent.lost == [] {
      FullWalkDeliversFlight(flight, sent.pieces);
    } else {
      LostIsMissed(flight, here, sent);
    }
  }

  lemma {:induction false} WalkExtends(flight: seq<Outgoing>, o: Outgoing, pieces: seq<Piece>)
    requires WellFormedFlight(flight) && o.WellFormed()
    requires Walk(flight, Cursor(0, 0), pieces).Some?
    ensures WellFormedFlight(flight + [o])
    ensures Walk(flight + [o], Cursor(0, 0), pieces) == Walk(flight, Cursor(0, 0), pieces)
    decreases |pieces|
  {
    if pieces != [] {
      WalkExtends(flight, o, pieces[..|pieces| - 1]);
    }
  }

  /** Queueing one more message leaves what has been sent, and the cursor, as they were. */
  lemma QueueKeepsSent(flight: seq<Outgoing>, o: Outgoing, here: Cursor, sent: Sent)
    requires WellFormedFlight(flight) && o.WellFormed()
    requires CursorOk(flight, here) && SentOk(flight, here, sent)
    ensures WellFormedFlight(flight + [o])
    ensures CursorOk(flight + [o], here) && SentOk(flight + [o], here, sent)
  {
    hide Outgoing.WellFormed, Accounted;
    var records := Joined(sent.batches);
    forall k | 0 <= k < |records|
      ensures Carries(flight + [o], records[k], sent.pieces[k])
    {
      assert Carries(flight, records[k], sent.pieces[k]);
    }
    WalkExtends(flight, o, sent.walked);
  }

  function UpdatedMtu(mtu: nat, query: int): nat {
    if mtu >= MIN_MTU then mtu
    else if MIN_MTU <= query <= 0x4000_0000 then query
    else DEFAULT_MTU
  }

  // The sender

  class Sender {
    const maxMessages: nat
    const writer: RecordWriter
    /** The timer, with the MTU that it lowers when datagrams keep getting lost. */
    const timer: Timer
    var outgoing: seq<Outgoing>
    var written: nat
    var offset: nat
    var complete: bool
    var flightHasReply: bool
    var writeSeq: nat
    var transcript: seq<seq<byte>>
    ghost var sent: Sent

    constructor (maxMessages: nat, aead: Aead, timeoutMs: nat)
      requires 0 < maxMessages < 256 && aead.Valid()
      ensures Valid() && outgoing == [] && fresh(writer) && fresh(timer) && writer.log == []
      ensures this.maxMessages == maxMessages && transcript == [] && writeSeq == 0 && sent == NOTHING_SENT
    {
      this.maxMessages := maxMessages;
      writer := new RecordWriter(aead);
      timer := new Timer(timeoutMs);
      outgoing, written, offset, complete, flightHasReply := [], 0, 0, false, false;
      writeSeq, transcript, sent := 0, [], NOTHING_SENT;
    }

    /** The parts of the state that sealing needs: a well-formed flight and a cursor into it. */
    ghost predicate Ready()
      reads this, writer, writer.writeSequence, writer.lastWriteSequence
    {
      && writer.Valid()
      && 0 < maxMessages < 256 && |outgoing| <= maxMessages && writeSeq < 0x10000
      && WellFormedFlight(outgoing)
      && CursorOk(outgoing, Here())
    }

    ghost predicate Valid()
      reads this, timer, writer, writer.writeSequence, writer.lastWriteSequence
    {
      Ready() && timer.Valid() && SentOk(outgoing, Here(), sent)
    }

    function Here(): Cursor
      reads this
    {
      Cursor(written, offset)
    }

    /** The rest of the flight can be sent in datagrams of this size. */
    ghost predicate CanFlow(mtu: nat)
      requires Ready()
      reads this, writer, writer.writeSequence, writer.lastWriteSequence
    {
      Flows(outgoing, Here(), writer.View(), mtu)
    }

    /** Sending the rest of the flight in datagrams of this size loses part of it. */
    ghost predicate MustLose(mtu: nat)
      requires Ready()
      reads this, writer, writer.writeSequence, writer.lastWriteSequence
    {
      Loses(outgoing, Here(), writer.View(), mtu)
    }

    /**
     seal_next_message: seals as much of the next message as fits into maxOut bytes, as one
     record, and moves the offset on; it succeeds, makes no progress or fails exactly when
     AttemptAt says so.
     */
    method SealNextMessage(out: array<byte>, at: nat, maxOut: nat) returns (result: SealResult, len: nat)
      requires Ready() && written < |outgoing| && at + maxOut <= out.Length
      requires out != writer.writeSequence && out != writer.lastWriteSequence
      modifies this`offset, writer`log, writer`exhausted, writer.writeSequence, writer.lastWriteSequence, out
      ensures writer.Valid() && out[..at] == old(out[..at])
      ensures writer.View() == old(AfterAttempt(AttemptAt(outgoing, Here(), writer.View(), maxOut), writer.View()))
      ensures at + len <= at + maxOut
      ensures Reported(outgoing, old(Here()), old(AttemptAt(outgoing, Here(), writer.View(), maxOut)), result, Here(),
                       old(writer.log), writer.log, out[at..at + len])
    {
      hide UsesPrevious, HasRoom, WellFormedFlight, CursorOk, AttemptAt, AfterAttempt, Reported, Below, DistinctNumbers,
           Aead.Valid, Counter;
      NothingToSeal(outgoing, Here(), writer.View(), maxOut, writer.log);
      var msg := outgoing[written];
      var previous, room := FindRoom(msg, maxOut);
      assert out[at..at + 0] == [];
      if previous.None? {
        return SealError, 0;
      }
      if !room {
        return NoProgress, 0;
      }
      if msg.isCcs {
        result, len := SealCcs(out, at, maxOut, previous.value);
      } else {
        result, len := SealHandshake(out, at, maxOut, previous.value);
      }
    }

    /** The epoch a message is sealed in, if it can be, and whether there is room for a piece of it. */
    method FindRoom(msg: Outgoing, maxOut: nat) returns (previous: Option<bool>, room: bool)
      requires writer.Valid()
      ensures previous == UsesPrevious(writer.View(), msg)
      ensures previous.Some? ==> room == HasRoom(msg, writer.View().AeadFor(previous.value), maxOut)
    {
      hide DistinctNumbers, Below, Counter, Aead.Valid;
      room := false;
      var usePrevious := false;
      if writer.epoch >= 1 && msg.epoch == writer.epoch - 1 {
        usePrevious := true;
      } else if msg.epoch != writer.epoch {
        return None, false;
      }
      var overhead := RECORD_HEADER_LENGTH + writer.AeadFor(usePrevious).maxOverhead;
      var prefix := RECORD_HEADER_LENGTH + writer.AeadFor(usePrevious).nonceLen;
      room := if msg.isCcs then maxOut >= 1 + overhead else maxOut >= HEADER_LENGTH + 1 + overhead && maxOut >= prefix;
      return Some(usePrevious), room;
    }

    /** Seals a ChangeCipherSpec, for which there is room. */
    method SealCcs(out: array<byte>, at: nat, maxOut: nat, usePrevious: bool) returns (result: SealResult, len: nat)
      requires Ready() && written < |outgoing| && at + maxOut <= out.Length
      requires out != writer.writeSequence && out != writer.lastWriteSequence
      requires outgoing[written].isCcs && UsesPrevious(writer.View(), outgoing[written]) == Some(usePrevious)
      requires HasRoom(outgoing[written], writer.View().AeadFor(usePrevious), maxOut)
      modifies this`offset, writer`log, writer`exhausted, writer.writeSequence, writer.lastWriteSequence, out
      ensures writer.Valid() && out[..at] == old(out[..at])
      ensures writer.View() == old(AfterAttempt(AttemptAt(outgoing, Here(), writer.View(), maxOut), writer.View()))
      ensures at + len <= at + maxOut
      ensures Reported(outgoing, old(Here()), old(AttemptAt(outgoing, Here(), writer.View(), maxOut)), result, Here(),
                       old(writer.log), writer.log, out[at..at + len])
    {
      hide Outgoing.WellFormed, Outgoing.Body, WellFormedFlight, FragmentOf, PieceFor, HasRoom, RecordWriter.Valid,
           AttemptAt, CursorOk, Next, Follows, KindOf, PlaintextOf, Reported, AfterAttempt;
      CcsIsNext(outgoing, Here(), writer.AeadFor(usePrevious), maxOut);
      result, len := SealPiece(out, at, maxOut, CHANGE_CIPHER_SPEC, [1], usePrevious, SealSuccess, offset);
    }

    /** Seals the next fragment of a handshake message, for which there is room. */
    method SealHandshake(out: array<byte>, at: nat, maxOut: nat, usePrevious: bool) returns (result: SealResult, len: nat)
      requires Ready() && written < |outgoing| && at + maxOut <= out.Length
      requires out != writer.writeSequence && out != writer.lastWriteSequence
      requires !outgoing[written].isCcs && UsesPrevious(writer.View(), outgoing[written]) == Some(usePrevious)
      requires HasRoom(outgoing[written], writer.View().AeadFor(usePrevious), maxOut)
      modifies this`offset, writer`log, writer`exhausted, writer.writeSequence, writer.lastWriteSequence, out
      ensures writer.Valid() && out[..at] == old(out[..at])
      ensures writer.View() == old(AfterAttempt(AttemptAt(outgoing, Here(), writer.View(), maxOut), writer.View()))
      ensures at + len <= at + maxOut
      ensures Reported(outgoing, old(Here()), old(AttemptAt(outgoing, Here(), writer.View(), maxOut)), result, Here(),
                       old(writer.log), writer.log, out[at..at + len])
    {
      hide Outgoing.WellFormed, Outgoing.Body, WellFormedFlight, FragmentOf, PieceFor, HasRoom, RecordWriter.Valid,
           AttemptAt, CursorOk, Next, Follows, KindOf, PlaintextOf, Reported, AfterAttempt;
      var fragment, next := TakePart(writer.AeadFor(usePrevious), maxOut);
      var success := if next == 0 then SealSuccess else SealPartial;
      result, len := SealPiece(out, at, maxOut, HANDSHAKE, fragment, usePrevious, success, next);
    }

    /** The next fragment, with as much of the message as there is room for, and the offset after it: 0 at the end. */
    method TakePart(aead: Aead, maxOut: nat) returns (fragment: seq<byte>, next: nat)
      requires Ready() && written < |outgoing| && !outgoing[written].isCcs && HasRoom(outgoing[written], aead, maxOut)
      ensures var p := PieceFor(outgoing, Here(), aead, maxOut);
              && KindOf(p) == HANDSHAKE && PlaintextOf(outgoing, p) == fragment
              && Follows(outgoing, Here(), p, if next == 0 then SealSuccess else SealPartial, Cursor(written, next))
    {
      var body := outgoing[written].Body()[offset..];
      var todo := |body|;
      if todo > maxOut - HEADER_LENGTH - RECORD_HEADER_LENGTH - aead.maxOverhead {
        todo := maxOut - HEADER_LENGTH - RECORD_HEADER_LENGTH - aead.maxOverhead;
      }
      var piece := Part(written, offset, body[..todo]);
      assert piece == PieceFor(outgoing, Here(), aead, maxOut);
      return FragmentOf(outgoing, piece).Bytes(), if todo == |body| then 0 else offset + todo;
    }

    /** Seals the next piece, whose plaintext this is, and moves the offset on. */
    method SealPiece(out: array<byte>, at: nat, maxOut: nat, kind: byte, plaintext: seq<byte>, usePrevious: bool,
                     success: SealResult, next: nat)
      returns (result: SealResult, len: nat)
      requires Ready() && written < |outgoing| && at + maxOut <= out.Length
      requires out != writer.writeSequence && out != writer.lastWriteSequence
      requires UsesPrevious(writer.View(), outgoing[written]) == Some(usePrevious)
      requires HasRoom(outgoing[written], writer.View().AeadFor(usePrevious), maxOut)
      requires var p := PieceFor(outgoing, Here(), writer.View().AeadFor(usePrevious), maxOut);
               && kind == KindOf(p) && plaintext == PlaintextOf(outgoing, p)
               && Follows(outgoing, Here(), p, success, Cursor(written, next))
      modifies this`offset, writer`log, writer`exhausted, writer.writeSequence, writer.lastWriteSequence, out
      ensures writer.Valid() && out[..at] == old(out[..at])
      ensures writer.View() == old(AfterAttempt(AttemptAt(outgoing, Here(), writer.View(), maxOut), writer.View()))
      ensures at + len <= at + maxOut
      ensures Reported(outgoing, old(Here()), old(AttemptAt(outgoing, Here(), writer.View(), maxOut)), result, Here(),
                       old(writer.log), writer.log, out[at..at + len])
    {
      hide Outgoing.WellFormed, WellFormedFlight, FragmentOf, PieceFor, HasRoom, AttemptAt, CursorOk, Next, Below,
           DistinctNumbers, Writer.Encrypts, Writer.Seals, Writer.Record, Writer.Counted, Counter, Aead.Valid,
           PlaintextOf;
      AttemptUnfolds(outgoing, Here(), writer.View(), maxOut);
      var sealed := writer.SealRecord(out, at, maxOut, kind, plaintext, usePrevious);
      if sealed.None? {
        return SealError, 0;
      }
      offset := next;
      return success, sealed.value;
    }

    /**
     seal_next_packet: fills one datagram of at most maxOut bytes with the next pieces of the
     flight, as PacketAt says.  On failure pieces may have been sealed that are then never sent.
     */
    method SealNextPacket(out: array<byte>, maxOut: nat) returns (total: Option<nat>)
      requires Ready() && written < |outgoing| && maxOut <= out.Length
      requires out != writer.writeSequence && out != writer.lastWriteSequence
      modifies this`written, this`offset
      modifies writer`log, writer`exhausted, writer.writeSequence, writer.lastWriteSequence, out
      ensures Ready()
      ensures var packet := old(PacketAt(outgoing, Here(), writer.View(), maxOut));
              && Here() == packet.here && writer.View() == packet.after && writer.log == old(writer.log) + packet.records
              && (total.Some? <==> packet.Succeeds())
              && (total.Some? ==> total.value <= maxOut && out[..total.value] == Wires(packet.records))
    {
      hide WellFormedFlight, CursorOk, Below, DistinctNumbers, Counter, Aead.Valid, AttemptAt, Next, Wires, PacketAt;
      ghost var packet := PacketAt(outgoing, Here(), writer.View(), maxOut);
      ghost var ps, rs, log := [], [], writer.log;
      var madeProgress := false;
      var at: nat := 0;
      NothingBehind(packet);
      while written < |outgoing|
        invariant Ready() && at <= maxOut && written <= |outgoing|
        invariant packet == PacketAt(outgoing, Here(), writer.View(), maxOut - at).Behind(ps, rs)
        invariant writer.log == log + rs && out[..at] == Wires(rs) && (madeProgress <==> ps != [])
        decreases |outgoing| - written
      {
        PacketGrows(outgoing, Here(), writer.View(), maxOut - at, ps, rs);
        ghost var attempt := AttemptAt(outgoing, Here(), writer.View(), maxOut - at);
        var result, len := SealNextMessage(out, at, maxOut - at);
        if result == SealError {
          return None;
        }
        if result == NoProgress {
          break;
        }
        WiresAppend(rs, attempt.record);
        ps, rs := ps + [attempt.piece], rs + [attempt.record];
        assert out[..at + len] == out[..at] + out[at..at + len];
        at := at + len;
        madeProgress := true;
        if result == SealPartial {
          break;
        }
        written := written + 1;
      }
      if written == |outgoing| {
        PacketEnds(outgoing, Here(), writer.View(), maxOut - at, ps, rs);
      }
      if !madeProgress {
        return None;
      }
      return Some(at);
    }

    /** Pieces of the flight have been sealed that were never sent. */
    ghost predicate Gap()
      reads this
    {
      sent.lost != []
    }

    /** dtls1_update_mtu: an MTU below the minimum is replaced by the transport's or the default. */
    method UpdateMtu(noQuery: bool, query: int)
      requires noQuery ==> timer.mtu >= MIN_MTU
      modifies timer`mtu
      ensures timer.mtu == UpdatedMtu(old(timer.mtu), query)
      ensures timer.mtu == if old(timer.mtu) >= 228 then old(timer.mtu) else if 228 <= query <= 0x4000_0000 then query else 1472
    {
      if timer.mtu < MIN_MTU && !noQuery {
        if MIN_MTU <= query <= 0x4000_0000 {
          timer.mtu := query;
        } else {
          timer.mtu := DEFAULT_MTU;
        }
      }
    }

    /**
     One datagram of send_flight: sealed, and handed to the transport.  If the transport
     refuses it, the cursor goes back to where the datagram began; if sealing is refused in
     the middle of it, what was sealed before is lost.
     */
    method SendPacket(packet: array<byte>, bio: Bio) returns (ret: Option<int>)
      requires Valid() && written < |outgoing| && packet.Length == timer.mtu
      requires packet != writer.writeSequence && packet != writer.lastWriteSequence
      modifies this`written, this`offset, this`sent
      modifies writer`log, writer`exhausted, writer.writeSequence, writer.lastWriteSequence, bio, packet
      ensures Valid()
      ensures var p := old(PacketAt(outgoing, Here(), writer.View(), timer.mtu));
              && writer.View() == p.after && (ret.None? <==> !p.Succeeds()) && |Wires(p.records)| <= timer.mtu
              && (ret.Some? && bio.willing ==> ret.value > 0)
              && (ret.None? ==> Here() == p.here && sent == old(sent).Lose(p) && bio.log == old(bio.log))
              && (ret.Some? && ret.value <= 0 ==> Here() == old(Here()) && sent == old(sent) && bio.log == old(bio.log))
              && (ret.Some? && ret.value > 0 ==>
                    && Here() == p.here && old(Here()).Before(Here())
                    && sent == old(sent).Accept(p, Wires(p.records)) && bio.log == old(bio.log) + [Wires(p.records)])
    {
      hide WellFormedFlight, CursorOk, Below, DistinctNumbers, Counter, Aead.Valid, Next, SentOk, Wires, PacketAt,
           Cursor.Before, Sent.Lose, Sent.Accept;
      var oldWritten, oldOffset := written, offset;
      ghost var p := PacketAt(outgoing, Here(), writer.View(), timer.mtu);
      PacketWalks(outgoing, Here(), writer.View(), timer.mtu);
      AcceptedOk(outgoing, Here(), sent, p, Wires(p.records), timer.mtu);
      LostOk(outgoing, Here(), sent, p, timer.mtu);
      var total := SealNextPacket(packet, timer.mtu);
      if total.None? {
        sent := sent.Lose(p);
        return None;
      }
      var bytes := packet[..total.value];
      var bioRet := bio.Write(bytes);
      if bioRet <= 0 {
        written, offset := oldWritten, oldOffset;
        return Some(bioRet);
      }
      sent := sent.Accept(p, bytes);
      return Some(bioRet);
    }

    /**
     The loop of send_flight: datagram after datagram until the flight is out, sealing is
     refused or the transport refuses one.
     */
    method SendDatagrams(packet: array<byte>, bio: Bio) returns (ret: int)
      requires Valid() && packet.Length == timer.mtu
      requires packet != writer.writeSequence && packet != writer.lastWriteSequence
      modifies this`written, this`offset, this`sent
      modifies writer`log, writer`exhausted, writer.writeSequence, writer.lastWriteSequence, bio, packet
      ensures Valid() && (old(Gap()) ==> Gap())
      ensures ret == 1 ==> Here() == Cursor(|outgoing|, 0) && Gap() == old(Gap()) && old(CanFlow(timer.mtu))
      ensures Gap() ==> old(Gap()) || old(MustLose(timer.mtu))
      ensures bio.willing ==> (ret == 1 <==> old(CanFlow(timer.mtu))) && (Gap() <==> old(Gap()) || old(MustLose(timer.mtu)))
      ensures |sent.packets| >= |old(sent.packets)| && sent.packets[..|old(sent.packets)|] == old(sent.packets)
      ensures bio.log == old(bio.log) + sent.packets[|old(sent.packets)|..]
      ensures forall k | |old(sent.packets)| <= k < |sent.packets| :: |sent.packets[k]| <= timer.mtu
    {
      hide WellFormedFlight, CursorOk, Below, DistinctNumbers, Counter, Aead.Valid, SentOk, Flows, Loses, Wires,
           PacketAt, Packet.Succeeds;
      ghost var before := sent.packets;
      ghost var flows, loses := CanFlow(timer.mtu), MustLose(timer.mtu);
      while written < |outgoing|
        invariant Valid() && Gap() == old(Gap()) && flows == CanFlow(timer.mtu) && loses == MustLose(timer.mtu)
        invariant |sent.packets| >= |before| && sent.packets[..|before|] == before
        invariant bio.log == old(bio.log) + sent.packets[|before|..]
        invariant forall k | |before| <= k < |sent.packets| :: |sent.packets[k]| <= timer.mtu
        decreases |outgoing| - written, Left()
      {
        FlowsOn(outgoing, Here(), writer.View(), timer.mtu);
        LeftIsPositive();
        var sending := SendPacket(packet, bio);
        if sending.None? {
          return -1;
        }
        if sending.value <= 0 {
          return sending.value;
        }
        LeftIsPositive();
      }
      EndIsClean(outgoing, Here());
      FlowsOn(outgoing, Here(), writer.View(), timer.mtu);
      return 1;
    }

    /**
     send_flight: sends datagrams until the flight is out or the transport refuses one.  A part
     of the flight is lost only if that was settled beforehand, by messages, counters and MTU;
     if the transport takes everything, then exactly if, and the call succeeds exactly if every
     datagram can be filled.
     */
    method SendFlight(bio: Bio, shutdown: bool, noQuery: bool, query: int) returns (ret: int)
      requires Valid() && (noQuery ==> timer.mtu >= MIN_MTU)
      modifies this`written, this`offset, this`sent, timer`mtu
      modifies writer`log, writer`exhausted, writer.writeSequence, writer.lastWriteSequence, bio
      ensures Valid()
      ensures ret == 1 ==> written == |outgoing| && offset == 0 && Gap() == old(Gap())
      ensures ret == 1 ==> (FlightDelivered(outgoing, sent.pieces) <==> !Gap())
      ensures var mtu := UpdatedMtu(old(timer.mtu), query);
              && (ret == 1 ==> old(CanFlow(mtu)))
              && (old(Gap()) ==> Gap()) && (Gap() ==> old(Gap()) || old(MustLose(mtu)))
              && (bio.willing && !shutdown ==>
                    (ret == 1 <==> old(CanFlow(mtu))) && (Gap() <==> old(Gap()) || old(MustLose(mtu))))
      ensures |sent.packets| >= |old(sent.packets)| && sent.packets[..|old(sent.packets)|] == old(sent.packets)
      ensures bio.log == old(bio.log) + sent.packets[|old(sent.packets)|..]
      ensures forall k | |old(sent.packets)| <= k < |sent.packets| :: |sent.packets[k]| <= timer.mtu
    {
      hide WellFormedFlight, CursorOk, Below, DistinctNumbers, Counter, Aead.Valid, SentOk, FlightDelivered, Flows,
           Loses, Wires, PacketAt, UpdatedMtu;
      if shutdown {
        return -1;
      }
      UpdateMtu(noQuery, query);
      var packet := new byte[timer.mtu];
      ret := SendDatagrams(packet, bio);
      if ret != 1 {
        return;
      }
      DeliveredIffNothingLost(outgoing, Here(), sent);
      var flushed := bio.Flush();
      if flushed <= 0 {
        return -1;
      }
      return 1;
    }

    /** dtls1_retransmit_outgoing_messages: the whole flight again, from its start. */
    method Retransmit(bio: Bio, shutdown: bool, noQuery: bool, query: int) returns (ret: int)
      requires Valid() && (noQuery ==> timer.mtu >= MIN_MTU)
      modifies this`written, this`offset, this`sent, timer`mtu
      modifies writer`log, writer`exhausted, writer.writeSequence, writer.lastWriteSequence, bio
      ensures Valid()
      ensures ret == 1 ==> FlightDelivered(outgoing, sent.pieces) && !Gap()
      ensures var flows := old(Flows(outgoing, Cursor(0, 0), writer.View(), UpdatedMtu(timer.mtu, query)));
              var loses := old(Loses(outgoing, Cursor(0, 0), writer.View(), UpdatedMtu(timer.mtu, query)));
              && (ret == 1 ==> flows) && (Gap() ==> loses)
              && (bio.willing && !shutdown ==> (ret == 1 <==> flows) && (Gap() <==> loses))
      ensures bio.log == old(bio.log) + sent.packets
      ensures forall k | 0 <= k < |sent.packets| :: |sent.packets[k]| <= timer.mtu
    {
      hide WellFormedFlight, Below, DistinctNumbers, Counter, Aead.Valid, FlightDelivered, Flows, Loses, Wires;
      NothingSentOk(outgoing);
      written, offset, sent := 0, 0, NOTHING_SENT;
      ret := SendFlight(bio, shutdown, noQuery, query);
    }

    /** dtls1_flush_flight: the flight is complete; start the timer and send what is left of it. */
    method FlushFlight(bio: Bio, now: Time, shutdown: bool, noQuery: bool, query: int) returns (ret: int)
      requires Valid() && (noQuery ==> timer.mtu >= MIN_MTU) && now.Normal() && now.Micros() > 0
      modifies this`written, this`offset, this`sent, this`complete, timer
      modifies writer`log, writer`exhausted, writer.writeSequence, writer.lastWriteSequence, bio
      ensures Valid() && complete && (old(Gap()) ==> Gap())
      ensures timer.nextTimeout != NO_TIMEOUT && timer.nextTimeout.Micros() == now.Micros() + timer.durationMs * 1000
      ensures timer.durationMs == if old(timer.nextTimeout) == NO_TIMEOUT then timer.initialMs else old(timer.durationMs)
      ensures ret == 1 ==> written == |outgoing| && offset == 0 && Gap() == old(Gap())
      ensures ret == 1 ==> (FlightDelivered(outgoing, sent.pieces) <==> !Gap())
      ensures var mtu := UpdatedMtu(old(timer.mtu), query);
              && (Gap() ==> old(Gap()) || old(MustLose(mtu)))
              && (bio.willing && !shutdown ==>
                    (ret == 1 <==> old(CanFlow(mtu))) && (Gap() <==> old(Gap()) || old(MustLose(mtu))))
      ensures |sent.packets| >= |old(sent.packets)|
      ensures bio.log == old(bio.log) + sent.packets[|old(sent.packets)|..]
    {
      hide WellFormedFlight, Below, DistinctNumbers, Counter, Aead.Valid, FlightDelivered, SentOk, CursorOk, Flows,
           Loses, Timer.Valid;
      complete := true;
      timer.Start(now);
      ret := SendFlight(bio, shutdown, noQuery, query);
    }

    /**
     DTLSv1_handle_timeout: when the timer has expired the backoff doubles and the whole flight
     is sent again; the thirteenth timeout in a row fails.
     */
    method HandleTimeout(bio: Bio, now: Time, shutdown: bool, noQuery: bool, fallbackMtu: int, query: int)
      returns (ret: int)
      requires Valid() && (noQuery ==> timer.mtu >= MIN_MTU) && now.Normal() && now.Micros() > 0
      modifies this`written, this`offset, this`sent, timer
      modifies writer`log, writer`exhausted, writer.writeSequence, writer.lastWriteSequence, bio
      ensures Valid()
      ensures var expired := old(timer.nextTimeout) != NO_TIMEOUT && old(timer.nextTimeout).Micros() < now.Micros() + 15_000;
              && (!expired ==> ret == 0 && Here() == old(Here()) && sent == old(sent))
              && (expired && old(timer.numTimeouts) >= 12 ==> ret == -1)
              && (expired && old(timer.numTimeouts) < 12 ==>
                    && timer.numTimeouts == old(timer.numTimeouts) + 1
                    && timer.durationMs == Backoff(timer.base, timer.numTimeouts)
                    && timer.nextTimeout.Micros() == now.Micros() + timer.durationMs * 1000
                    && bio.log == old(bio.log) + sent.packets
                    && (ret == 1 ==> FlightDelivered(outgoing, sent.pieces)))
              && (!expired || old(timer.numTimeouts) >= 12 ==> bio.log == old(bio.log))
    {
      hide WellFormedFlight, RecordWriter.Valid, FlightDelivered, SentOk, CursorOk, Flows, Loses, Timer.Valid,
           Remaining, Backoff;
      var action := timer.HandleTimeout(now, noQuery, fallbackMtu);
      if action != 1 {
        return action;
      }
      ret := Retransmit(bio, shutdown, noQuery, query);
    }

    /** dtls_clear_outgoing_messages */
    method ClearOutgoing()
      requires Valid()
      modifies this`outgoing, this`written, this`offset, this`complete, this`flightHasReply, this`sent
      ensures Valid() && outgoing == [] && Here() == Cursor(0, 0) && !complete && !flightHasReply && !Gap()
    {
      outgoing, written, offset, complete, flightHasReply := [], 0, 0, false, false;
      sent := NOTHING_SENT;
      NothingSentOk([]);
    }

    /**
     add_outgoing: queues a message or a ChangeCipherSpec, starting a new flight and stopping
     the timer if the last flight was complete.  Handshake messages enter the transcript whole,
     exactly as queued.
     */
    method AddOutgoing(isCcs: bool, data: seq<byte>) returns (ok: bool)
      requires Valid() && Outgoing(data, writer.epoch, isCcs).WellFormed()
      modifies this`outgoing, this`written, this`offset, this`complete, this`flightHasReply, this`sent
      modifies this`transcript, this`writeSeq, timer
      ensures Valid()
      ensures var queued := if old(complete) then [] else old(outgoing);
              && ok == (|queued| < maxMessages && |data| <= 0xffff_ffff)
              && outgoing == if ok then queued + [Outgoing(data, writer.epoch, isCcs)] else queued
      ensures transcript == if ok && !isCcs then old(transcript) + [data] else old(transcript)
      ensures writeSeq == if ok && !isCcs then (old(writeSeq) + 1) % 0x10000 else old(writeSeq)
      ensures if old(complete) then timer.nextTimeout == NO_TIMEOUT && timer.numTimeouts == 0 && Here() == Cursor(0, 0)
              else timer.nextTimeout == old(timer.nextTimeout) && timer.numTimeouts == old(timer.numTimeouts)
                   && Here() == old(Here()) && sent == old(sent)
    {
      hide Outgoing.WellFormed, RecordWriter.Valid, CursorOk, SentOk, WellFormedFlight, Timer.Valid;
      if complete {
        timer.Stop();
        ClearOutgoing();
      }
      if |outgoing| >= maxMessages || |data| > 0xffff_ffff {
        return false;
      }
      if !isCcs {
        transcript := transcript + [data];
        writeSeq := (writeSeq + 1) % 0x10000;
      }
      QueueKeepsSent(outgoing, Outgoing(data, writer.epoch, isCcs), Here(), sent);
      outgoing := outgoing + [Outgoing(data, writer.epoch, isCcs)];
      return true;
    }

    /** dtls1_init_message, dtls1_finish_message and dtls1_add_message for a message with this body. */
    method AddMessage(msgType: byte, body: seq<byte>) returns (ok: bool)
      requires Valid() && |body| < 0x1000000
      modifies this`outgoing, this`written, this`offset, this`complete, this`flightHasReply, this`sent
      modifies this`transcript, this`writeSeq, timer
      ensures Valid()
      ensures var raw := E.Message(msgType, body).Raw(old(writeSeq));
              && ok == ((if old(complete) then 0 else |old(outgoing)|) < maxMessages)
              && transcript == (if ok then old(transcript) + [raw] else old(transcript))
              && outgoing == (if old(complete) then [] else old(outgoing))
                             + if ok then [Outgoing(raw, writer.epoch, false)] else []
      ensures writeSeq == if ok then (old(writeSeq) + 1) % 0x10000 else old(writeSeq)
    {
      hide Outgoing.WellFormed, RecordWriter.Valid, SentOk, CursorOk, Timer.Valid;
      var data := FinishMessage(InitMessage(msgType, writeSeq) + BigEndian(|body|, 3) + body);
      FinishedMessageIsWhole(msgType, writeSeq, body);
      RawIsWellFormed(E.Message(msgType, body), writeSeq, writer.epoch);
      ok := AddOutgoing(false, data);
    }

    /** How much of the current message is still to be sent. */
    ghost function Left(): int
      reads this
    {
      if written < |outgoing| then |outgoing[written].data| - offset else 0
    }

    lemma LeftIsPositive()
      requires Ready()
      ensures Left() >= 0
    {
      if written < |outgoing| && !outgoing[written].isCcs {
        BodyIsShorter(outgoing[written]);
      }
    }
  }

  lemma BodyIsShorter(o: Outgoing)
    requires o.WellFormed() && !o.isCcs
    ensures |o.Body()| <= |o.data|
  {
    var (f, rest) := ParseFragment(o.data).value;
    ParseFragmentExact(o.data, f, rest);
  }
}
