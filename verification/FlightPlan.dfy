/**
 What a flight of outgoing handshake messages looks like on the wire: the two-part cursor
 (message, offset) of d1_both.cc, the pieces that records carry, and what a sequence of
 pieces delivers.
 */
module FlightPlan {
  import opened Bits
  import opened Wrappers
  import opened Wire
  import E = EndToEnd

  /** A queued handshake message, or a ChangeCipherSpec. */
  datatype Outgoing = Outgoing(data: seq<byte>, epoch: nat, isCcs: bool) {
    /** Messages are queued as one whole fragment. */
    predicate WellFormed() {
      isCcs || (
        && ParseFragment(data).Some?
        && var (f, rest) := ParseFragment(data).value;
           rest == [] && f.header.fragOff == 0 && f.header.fragLen == f.header.msgLen == |f.body|)
    }

    function Whole(): Fragment
      requires WellFormed() && !isCcs
    {
      ParseFragment(data).value.0
    }

    function Body(): seq<byte>
      requires WellFormed() && !isCcs
    {
      Whole().body
    }
  }

  predicate WellFormedFlight(flight: seq<Outgoing>) {
    forall i | 0 <= i < |flight| :: flight[i].WellFormed()
  }

  datatype Cursor = Cursor(written: nat, offset: nat) {
    predicate Before(other: Cursor) {
      written < other.written || (written == other.written && offset < other.offset)
    }
  }

  /** The content of one record: a ChangeCipherSpec, or some bytes of a message. */
  datatype Piece = Ccs(index: nat) | Part(index: nat, offset: nat, body: seq<byte>)

  function FragmentOf(flight: seq<Outgoing>, p: Piece): Fragment
    requires WellFormedFlight(flight) && p.Part? && p.index < |flight| && !flight[p.index].isCcs
  {
    var h := flight[p.index].Whole().header;
    Fragment(Header(h.msgType, h.msgLen, h.msgSeq, p.offset, |p.body|), p.body)
  }

  /** Where the cursor stands after a piece that continues exactly where it stood before. */
  function Next(flight: seq<Outgoing>, c: Cursor, p: Piece): Option<Cursor>
    requires WellFormedFlight(flight)
  {
    if c.written >= |flight| || p.index != c.written then None
    else if flight[c.written].isCcs then
      if p.Ccs? && c.offset == 0 then Some(Cursor(c.written + 1, 0)) else None
    else
      var body := flight[c.written].Body();
      if p.Ccs? || p.offset != c.offset || p.offset + |p.body| > |body|
         || p.body != body[p.offset..p.offset + |p.body|] then None
      else if p.offset + |p.body| == |body| then Some(Cursor(c.written + 1, 0))
      else if p.body == [] then None
      else Some(Cursor(c.written, p.offset + |p.body|))
  }

  /** Where a whole sequence of pieces leads. */
  function Walk(flight: seq<Outgoing>, c: Cursor, pieces: seq<Piece>): Option<Cursor>
    requires WellFormedFlight(flight)
  {
    if pieces == [] then Some(c)
    else match Walk(flight, c, pieces[..|pieces| - 1])
      case None => None
      case Some(mid) => Next(flight, mid, pieces[|pieces| - 1])
  }

  lemma {:induction false} WalkConcat(flight: seq<Outgoing>, c: Cursor, a: seq<Piece>, b: seq<Piece>)
    requires WellFormedFlight(flight) && Walk(flight, c, a).Some?
    ensures Walk(flight, c, a + b) == Walk(flight, Walk(flight, c, a).value, b)
    decreases |b|
  {
    if b == [] {
      assert a + b == a;
    } else {
      var b0 := b[..|b| - 1];
      WalkConcat(flight, c, a, b0);
      assert (a + b)[..|a + b| - 1] == a + b0;
    }
  }

  /** Every piece moves the cursor strictly forward. */
  lemma NextAdvances(flight: seq<Outgoing>, c: Cursor, p: Piece)
    requires WellFormedFlight(flight) && Next(flight, c, p).Some?
    ensures c.Before(Next(flight, c, p).value)
    ensures Next(flight, c, p).value.written <= |flight|
  {
  }

  // What the pieces deliver

  /** The bytes of message i, in the order in which the pieces carry them. */
  function BytesOf(pieces: seq<Piece>, i: nat): seq<byte> {
    if pieces == [] then []
    else
      var p := pieces[|pieces| - 1];
      BytesOf(pieces[..|pieces| - 1], i) + (if p.Part? && p.index == i then p.body else [])
  }

  function CountOf(pieces: seq<Piece>, i: nat): nat {
    if pieces == [] then 0
    else CountOf(pieces[..|pieces| - 1], i) + (if pieces[|pieces| - 1].index == i then 1 else 0)
  }

  /** What pieces that lead from the start of a flight to a cursor have delivered of message i. */
  ghost predicate DeliveredUpTo(flight: seq<Outgoing>, c: Cursor, pieces: seq<Piece>, i: nat)
    requires WellFormedFlight(flight) && i < |flight|
  {
    if flight[i].isCcs then
      BytesOf(pieces, i) == [] && CountOf(pieces, i) == if i < c.written then 1 else 0
    else
      var body := flight[i].Body();
      && (body == [] ==> CountOf(pieces, i) == if i < c.written then 1 else 0)
      && if i < c.written then BytesOf(pieces, i) == body && CountOf(pieces, i) >= 1
      else if i == c.written then c.offset <= |body| && BytesOf(pieces, i) == body[..c.offset]
      else BytesOf(pieces, i) == [] && CountOf(pieces, i) == 0
  }

  lemma NextDelivers(flight: seq<Outgoing>, c: Cursor, front: seq<Piece>, p: Piece, i: nat)
    requires WellFormedFlight(flight) && i < |flight|
    requires DeliveredUpTo(flight, c, front, i) && Next(flight, c, p).Some?
    ensures DeliveredUpTo(flight, Next(flight, c, p).value, front + [p], i)
  {
    hide Outgoing.WellFormed, Outgoing.Body, BytesOf, CountOf;
    AppendPiece(front, p, i);
    if p.index == i && !flight[i].isCcs {
      var body := flight[i].Body();
      assert body[..c.offset] + p.body == body[..c.offset + |p.body|];
      assert body[..|body|] == body;
    }
  }

  lemma AppendPiece(front: seq<Piece>, p: Piece, i: nat)
    ensures BytesOf(front + [p], i) == BytesOf(front, i) + (if p.Part? && p.index == i then p.body else [])
    ensures CountOf(front + [p], i) == CountOf(front, i) + (if p.index == i then 1 else 0)
  {
    assert (front + [p])[..|front|] == front;
  }

  /** A cursor into the flight; at the start of a message, or inside its body. */
  ghost predicate CursorOk(flight: seq<Outgoing>, c: Cursor)
    requires WellFormedFlight(flight)
  {
    && c.written <= |flight|
    && (c.offset != 0 ==> c.written < |flight| && !flight[c.written].isCcs && c.offset < |flight[c.written].Body()|)
  }

  lemma EndIsClean(flight: seq<Outgoing>, c: Cursor)
    requires WellFormedFlight(flight) && CursorOk(flight, c) && c.written >= |flight|
    ensures c == Cursor(|flight|, 0)
  {
  }

  lemma NextIsOk(flight: seq<Outgoing>, c: Cursor, p: Piece)
    requires WellFormedFlight(flight) && Next(flight, c, p).Some?
    ensures CursorOk(flight, Next(flight, c, p).value)
  {
  }

  /** A ChangeCipherSpec, some bytes of a message, or all of an empty one: something would be missing without it. */
  ghost predicate Matters(flight: seq<Outgoing>, p: Piece)
    requires WellFormedFlight(flight)
  {
    && p.index < |flight|
    && if flight[p.index].isCcs then p.Ccs? else p.Part? && (p.body != [] || flight[p.index].Body() == [])
  }

  lemma NextMatters(flight: seq<Outgoing>, c: Cursor, p: Piece)
    requires WellFormedFlight(flight) && CursorOk(flight, c) && Next(flight, c, p).Some?
    ensures Matters(flight, p)
  {
  }

  lemma {:induction false} WalkMatters(flight: seq<Outgoing>, c: Cursor, pieces: seq<Piece>)
    requires WellFormedFlight(flight) && CursorOk(flight, c) && Walk(flight, c, pieces).Some?
    ensures CursorOk(flight, Walk(flight, c, pieces).value)
    ensures forall p | p in pieces :: Matters(flight, p)
    decreases |pieces|
  {
    if pieces != [] {
      hide CursorOk, Matters, Next, WellFormedFlight;
      var front, p := pieces[..|pieces| - 1], pieces[|pieces| - 1];
      WalkMatters(flight, c, front);
      NextMatters(flight, Walk(flight, c, front).value, p);
      NextIsOk(flight, Walk(flight, c, front).value, p);
      assert pieces == front + [p];
    }
  }

  /**
   A walk from the start of a flight delivers every byte of every message before the cursor
   exactly once and in order, each ChangeCipherSpec once, and nothing beyond the cursor.
   */
  lemma {:induction false} WalkDelivers(flight: seq<Outgoing>, pieces: seq<Piece>, i: nat)
    requires WellFormedFlight(flight) && i < |flight|
    requires Walk(flight, Cursor(0, 0), pieces).Some?
    ensures DeliveredUpTo(flight, Walk(flight, Cursor(0, 0), pieces).value, pieces, i)
    decreases |pieces|
  {
    if pieces != [] {
      hide DeliveredUpTo, Next, WellFormedFlight;
      var front, p := pieces[..|pieces| - 1], pieces[|pieces| - 1];
      WalkDelivers(flight, front, i);
      NextDelivers(flight, Walk(flight, Cursor(0, 0), front).value, front, p, i);
      assert front + [p] == pieces;
    }
  }

  /** Pieces that lead all the way through a flight deliver all of it, once and in order. */
  lemma FullWalkDeliversFlight(flight: seq<Outgoing>, pieces: seq<Piece>)
    requires WellFormedFlight(flight)
    requires Walk(flight, Cursor(0, 0), pieces) == Some(Cursor(|flight|, 0))
    ensures forall i | 0 <= i < |flight| ::
              if flight[i].isCcs then CountOf(pieces, i) == 1
              else BytesOf(pieces, i) == flight[i].Body() && CountOf(pieces, i) >= 1
  {
    forall i | 0 <= i < |flight|
      ensures if flight[i].isCcs then CountOf(pieces, i) == 1
              else BytesOf(pieces, i) == flight[i].Body() && CountOf(pieces, i) >= 1
    {
      WalkDelivers(flight, pieces, i);
    }
  }

  lemma LastOfConcat<T>(a: seq<T>, b: seq<T>)
    requires b != []
    ensures a + b != [] && (a + b)[..|a + b| - 1] == a + b[..|b| - 1] && (a + b)[|a + b| - 1] == b[|b| - 1]
    ensures a + b == (a + b[..|b| - 1]) + [b[|b| - 1]] && b == b[..|b| - 1] + [b[|b| - 1]]
  {
  }

  lemma {:induction false} PiecesConcat(a: seq<Piece>, b: seq<Piece>, i: nat)
    ensures BytesOf(a + b, i) == BytesOf(a, i) + BytesOf(b, i)
    ensures CountOf(a + b, i) == CountOf(a, i) + CountOf(b, i)
    decreases |b|
  {
    if b == [] {
      assert a + b == a;
    } else {
      hide BytesOf, CountOf;
      var front, p := b[..|b| - 1], b[|b| - 1];
      PiecesConcat(a, front, i);
      LastOfConcat(a, b);
      AppendPiece(a + front, p, i);
      AppendPiece(front, p, i);
    }
  }

  /** Pieces of which none is for message i deliver nothing of it; any that matters delivers something. */
  lemma {:induction false} PieceShows(flight: seq<Outgoing>, pieces: seq<Piece>, k: nat)
    requires WellFormedFlight(flight) && k < |pieces| && Matters(flight, pieces[k])
    ensures CountOf(pieces, pieces[k].index) >= 1
    ensures pieces[k].Part? && pieces[k].body != [] ==> |BytesOf(pieces, pieces[k].index)| >= 1
    decreases |pieces|
  {
    hide WellFormedFlight, Matters;
    if k < |pieces| - 1 {
      PieceShows(flight, pieces[..|pieces| - 1], k);
    }
  }

  // Queued messages

  /** The header a message is started with: its length is filled in later. */
  function InitMessage(msgType: byte, msgSeq: nat): seq<byte> {
    [msgType] + BigEndian(0, 3) + BigEndian(msgSeq, 2) + BigEndian(0, 3)
  }

  /** dtls1_finish_message copies the fragment length over the message length. */
  function FinishMessage(cbb: seq<byte>): seq<byte>
    requires |cbb| >= HEADER_LENGTH
  {
    cbb[..1] + cbb[HEADER_LENGTH - 3..HEADER_LENGTH] + cbb[4..]
  }

  lemma Splice(t: byte, z: seq<byte>, q: seq<byte>, l: seq<byte>, body: seq<byte>)
    requires |z| == |l| == 3 && |q| == 2
    ensures FinishMessage([t] + z + q + z + l + body) == [t] + l + q + z + l + body
  {
    var cbb := [t] + z + q + z + l + body;
    assert cbb[HEADER_LENGTH - 3..HEADER_LENGTH] == l;
    assert cbb[4..] == q + z + l + body;
  }

  /** A started and finished message is the whole message as a single fragment. */
  lemma FinishedMessageIsWhole(msgType: byte, msgSeq: nat, body: seq<byte>)
    requires |body| < 0x1000000
    ensures FinishMessage(InitMessage(msgType, msgSeq) + BigEndian(|body|, 3) + body)
         == E.Message(msgType, body).Raw(msgSeq)
  {
    hide BigEndian;
    Splice(msgType, BigEndian(0, 3), BigEndian(msgSeq, 2), BigEndian(|body|, 3), body);
  }

  lemma RawIsWellFormed(m: E.Message, msgSeq: nat, epoch: nat)
    requires msgSeq < 0x10000 && |m.body| < 0x1000000
    ensures var o := Outgoing(m.Raw(msgSeq), epoch, false);
            o.WellFormed() && o.Whole() == Fragment(m.Whole(msgSeq), m.body)
  {
    var f := Fragment(m.Whole(msgSeq), m.body);
    assert f.Bytes() + [] == m.Raw(msgSeq);
    ParseFragmentExact(m.Raw(msgSeq), f, []);
  }
}
