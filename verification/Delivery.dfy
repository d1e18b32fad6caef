/**
 Sender and receiver together: the pieces a flight is cut into are fragments of its
 messages whatever the datagram sizes, and the pieces of one complete transmission, in
 whatever order and company they arrive, are enough for the receiver to have it all.
 */
module Delivery {
  import opened Wrappers
  import opened Wire
  import opened Coverage
  import opened FlightPlan
  import R = Reassembly
  import E = EndToEnd

  /** The place in the queue of a flight's ChangeCipherSpec is behind its plain messages; the last message follows it. */
  function QueueLength(flight: E.Flight): nat {
    if |flight.msgs| > flight.plain then |flight.msgs| + 1 else |flight.msgs|
  }

  function MessageIndex(flight: E.Flight, k: nat): nat {
    if k > flight.plain then k - 1 else k
  }

  /** What is queued at place k: a message in its epoch, or the ChangeCipherSpec between them. */
  ghost predicate QueuedAt(outgoing: seq<Outgoing>, flight: E.Flight, epoch: nat, k: nat)
    requires k < |outgoing| == QueueLength(flight) && flight.plain <= |flight.msgs| <= flight.plain + 1
  {
    && outgoing[k].epoch == (if k <= flight.plain then epoch else epoch + 1)
    && if k == flight.plain then outgoing[k].isCcs
       else
         var i := MessageIndex(flight, k);
         && !outgoing[k].isCcs && outgoing[k].WellFormed() && |flight.msgs[i].body| < 0x1000000
         && outgoing[k].Whole() == Fragment(flight.msgs[i].Whole(flight.first + i), flight.msgs[i].body)
  }

  /** The outgoing queue that holds a flight, sent from this epoch on. */
  ghost predicate Queues(outgoing: seq<Outgoing>, flight: E.Flight, epoch: nat) {
    && flight.plain <= |flight.msgs| <= flight.plain + 1 && flight.first + |flight.msgs| < 0x10000
    && |outgoing| == QueueLength(flight)
    && forall k | 0 <= k < |outgoing| :: QueuedAt(outgoing, flight, epoch, k)
  }

  lemma QueueIsWellFormed(outgoing: seq<Outgoing>, flight: E.Flight, epoch: nat)
    requires Queues(outgoing, flight, epoch)
    ensures WellFormedFlight(outgoing)
  {
    forall k | 0 <= k < |outgoing|
      ensures outgoing[k].WellFormed()
    {
      assert QueuedAt(outgoing, flight, epoch, k);
    }
  }

  /** Queueing the messages of a flight as the sender does gives such a queue. */
  lemma RawQueues(outgoing: seq<Outgoing>, flight: E.Flight, epoch: nat, n: nat)
    requires flight.Valid(n) && |outgoing| == QueueLength(flight)
    requires forall k | 0 <= k < |outgoing| ::
               && outgoing[k].epoch == (if k <= flight.plain then epoch else epoch + 1)
               && if k == flight.plain then outgoing[k].isCcs
                  else var i := MessageIndex(flight, k);
                       !outgoing[k].isCcs && outgoing[k].data == flight.msgs[i].Raw(flight.first + i)
    ensures Queues(outgoing, flight, epoch) && WellFormedFlight(outgoing)
  {
    forall k | 0 <= k < |outgoing|
      ensures QueuedAt(outgoing, flight, epoch, k)
    {
      if k != flight.plain {
        var i := MessageIndex(flight, k);
        RawIsWellFormed(flight.msgs[i], flight.first + i, outgoing[k].epoch);
      }
    }
    QueueIsWellFormed(outgoing, flight, epoch);
  }

  /** What the receiver gets when the record with this piece arrives. */
  function ArrivalOf(outgoing: seq<Outgoing>, flight: E.Flight, p: Piece): E.Arrival
    requires WellFormedFlight(outgoing) && (p.Part? ==> p.index < |outgoing| && !outgoing[p.index].isCcs)
  {
    if p.Ccs? then E.Ccs else E.Packet(p.index > flight.plain, [FragmentOf(outgoing, p)])
  }

  /** A piece that some cursor accepts. */
  ghost predicate Fits(outgoing: seq<Outgoing>, p: Piece)
    requires WellFormedFlight(outgoing)
  {
    exists c :: Next(outgoing, c, p).Some?
  }

  /** A piece that some cursor accepts carries a fragment of the message of its place, or the ChangeCipherSpec. */
  lemma PieceIsAuthentic(outgoing: seq<Outgoing>, flight: E.Flight, epoch: nat, c: Cursor, p: Piece)
    requires Queues(outgoing, flight, epoch) && WellFormedFlight(outgoing) && Next(outgoing, c, p).Some?
    ensures p.index < |outgoing| && (p.Ccs? <==> p.index == flight.plain)
    ensures p.Part? ==>
              && !outgoing[p.index].isCcs && flight.Piece(FragmentOf(outgoing, p))
              && FragmentOf(outgoing, p).header.msgSeq == flight.first + MessageIndex(flight, p.index)
              && FragmentOf(outgoing, p).header.msgLen == |flight.msgs[MessageIndex(flight, p.index)].body|
  {
    assert QueuedAt(outgoing, flight, epoch, p.index);
  }

  /** Every record of every transmission, complete or not, is authentic. */
  lemma TransmissionIsAuthentic(outgoing: seq<Outgoing>, flight: E.Flight, epoch: nat, maxLen: nat, p: Piece)
    requires Queues(outgoing, flight, epoch) && WellFormedFlight(outgoing) && Fits(outgoing, p)
    requires forall m | m in flight.msgs :: |m.body| <= maxLen
    ensures p.Part? ==> p.index < |outgoing| && !outgoing[p.index].isCcs
    ensures E.AllAuthentic(flight, maxLen, [ArrivalOf(outgoing, flight, p)])
  {
    hide Outgoing.WellFormed, FragmentOf, Next;
    var c :| Next(outgoing, c, p).Some?;
    PieceIsAuthentic(outgoing, flight, epoch, c, p);
  }

  /** The fragments in the records of a sequence of pieces. */
  function FragmentsOf(outgoing: seq<Outgoing>, c: Cursor, pieces: seq<Piece>): (fs: seq<Fragment>)
    requires WellFormedFlight(outgoing) && Walk(outgoing, c, pieces).Some?
    decreases |pieces|
  {
    if pieces == [] then []
    else
      var p := pieces[|pieces| - 1];
      FragmentsOf(outgoing, c, pieces[..|pieces| - 1])
      + (if p.Part? then [FragmentOf(outgoing, p)] else [])
  }

  /** What the fragments sent so far carry of the message at place k, for a cursor that started at the front. */
  ghost predicate CarriedUpTo(flight: E.Flight, c: Cursor, fragments: seq<Fragment>, k: nat)
    requires k < QueueLength(flight) && k != flight.plain
  {
    var s := flight.first + MessageIndex(flight, k);
    && (k < c.written ==> E.Covered(flight, fragments, s))
    && (k == c.written ==> E.Carried(fragments, s) == Range(0, c.offset))
    && (k > c.written ==> E.Carried(fragments, s) == {})
  }

  lemma {:induction false} WalkCarries(outgoing: seq<Outgoing>, flight: E.Flight, epoch: nat, pieces: seq<Piece>, k: nat)
    requires Queues(outgoing, flight, epoch) && WellFormedFlight(outgoing) && k < |outgoing| && k != flight.plain
    requires Walk(outgoing, Cursor(0, 0), pieces).Some?
    ensures CarriedUpTo(flight, Walk(outgoing, Cursor(0, 0), pieces).value,
                        FragmentsOf(outgoing, Cursor(0, 0), pieces), k)
    decreases |pieces|
  {
    if pieces != [] {
      hide CarriedUpTo, Next, WellFormedFlight, Queues;
      var front, p := pieces[..|pieces| - 1], pieces[|pieces| - 1];
      var c := Walk(outgoing, Cursor(0, 0), front).value;
      WalkCarries(outgoing, flight, epoch, front, k);
      var before := FragmentsOf(outgoing, Cursor(0, 0), front);
      assert before + [] == before;
      NextCarries(outgoing, flight, epoch, c, p, before, k);
    }
  }

  lemma NextCarries(outgoing: seq<Outgoing>, flight: E.Flight, epoch: nat, c: Cursor, p: Piece, fragments: seq<Fragment>,
                    k: nat)
    requires Queues(outgoing, flight, epoch) && WellFormedFlight(outgoing) && k < |outgoing| && k != flight.plain
    requires Next(outgoing, c, p).Some? && CarriedUpTo(flight, c, fragments, k)
    ensures p.Part? ==> p.index < |outgoing| && !outgoing[p.index].isCcs
    ensures CarriedUpTo(flight, Next(outgoing, c, p).value,
                        if p.Part? then fragments + [FragmentOf(outgoing, p)] else fragments, k)
  {
    hide Outgoing.WellFormed;
    PieceIsAuthentic(outgoing, flight, epoch, c, p);
    if p.Part? {
      var f := FragmentOf(outgoing, p);
      E.SeenStep(fragments, f, flight.first + MessageIndex(flight, k));
      assert QueuedAt(outgoing, flight, epoch, c.written);
      assert outgoing[c.written].Body() == flight.msgs[MessageIndex(flight, c.written)].body;
    }
  }

  /** More fragments carry more. */
  lemma {:induction false} CarriedGrows(some: seq<Fragment>, all: seq<Fragment>, s: nat)
    requires forall f | f in some && f.header.msgSeq == s :: f in all
    ensures E.Carried(some, s) <= E.Carried(all, s)
    ensures E.Seen(some, s) ==> E.Seen(all, s)
    decreases |some|
  {
    if some != [] {
      var f := some[|some| - 1];
      assert f in some && forall g | g in some[..|some| - 1] :: g in some;
      CarriedGrows(some[..|some| - 1], all, s);
      if f.header.msgSeq == s {
        OneIsCarried(all, f);
      }
    }
  }

  lemma {:induction false} OneIsCarried(all: seq<Fragment>, f: Fragment)
    requires f in all
    ensures Range(f.header.fragOff, f.header.fragOff + |f.body|) <= E.Carried(all, f.header.msgSeq)
    decreases |all|
  {
    var front := all[..|all| - 1];
    if f != all[|all| - 1] {
      assert f in front;
      OneIsCarried(front, f);
    }
  }

  lemma {:induction false} CarriedFits(flight: E.Flight, maxLen: nat, all: seq<Fragment>, s: nat)
    requires forall f | f in all :: flight.Genuine(maxLen, f)
    requires flight.Numbers(s)
    ensures E.Carried(all, s) <= Range(0, |flight.msgs[s - flight.first].body|)
    decreases |all|
  {
    if all != [] {
      assert all[|all| - 1] in all && forall g | g in all[..|all| - 1] :: g in all;
      CarriedFits(flight, maxLen, all[..|all| - 1], s);
    }
  }

  /** If the fragments of a message that a complete transmission has are among those heard, these cover it. */
  lemma TransmissionCovers(flight: E.Flight, outgoing: seq<Outgoing>, epoch: nat, pieces: seq<Piece>, maxLen: nat,
                           all: seq<Fragment>, k: nat)
    requires Queues(outgoing, flight, epoch) && WellFormedFlight(outgoing) && k < |outgoing| && k != flight.plain
    requires Walk(outgoing, Cursor(0, 0), pieces) == Some(Cursor(|outgoing|, 0))
    requires forall f | f in all :: flight.Genuine(maxLen, f)
    requires forall f | f in FragmentsOf(outgoing, Cursor(0, 0), pieces)
                        && f.header.msgSeq == flight.first + MessageIndex(flight, k) :: f in all
    ensures E.Covered(flight, all, flight.first + MessageIndex(flight, k))
  {
    var s := flight.first + MessageIndex(flight, k);
    assert flight.Numbers(s);
    hide Walk, FragmentsOf, Queues, WellFormedFlight, E.Seen, E.Carried, Range, E.Flight.Genuine;
    WalkCarries(outgoing, flight, epoch, pieces, k);
    CarriedGrows(FragmentsOf(outgoing, Cursor(0, 0), pieces), all, s);
    CarriedFits(flight, maxLen, all, s);
  }

  // What is heard

  lemma StatusStays(n: nat, maxLen: nat, plain: nat, r: E.Receiver, a: E.Arrival)
    requires r.st.Valid(n)
    ensures var r' := E.Receive(n, maxLen, plain, r, a);
            && (r.Stopped() ==> r' == r)
            && (r.keyed ==> r'.keyed) && (r.ccs && !r'.keyed ==> r'.ccs) && |r'.st.delivered| >= |r.st.delivered|
  {
    hide R.Ring.Valid, R.AcceptRecord;
  }

  /** Whatever stopped the receiver, or gave it the new keys, lasts. */
  lemma {:induction false} StatusLasts(n: nat, maxLen: nat, plain: nat, r: E.Receiver, arrivals: seq<E.Arrival>)
    requires r.st.Valid(n)
    ensures var r' := E.Run(n, maxLen, plain, r, arrivals);
            && (r.Stopped() ==> r' == r)
            && (r.keyed ==> r'.keyed) && (r.ccs && !r'.keyed ==> r'.ccs) && |r'.st.delivered| >= |r.st.delivered|
    decreases |arrivals|
  {
    if arrivals != [] {
      hide R.State.Valid, E.Receive;
      StatusStays(n, maxLen, plain, r, arrivals[0]);
      StatusLasts(n, maxLen, plain, E.Receive(n, maxLen, plain, r, arrivals[0]), arrivals[1..]);
    }
  }

  /** As long as nothing has gone wrong, every record of the current epoch is heard. */
  lemma {:induction false} AllHeard(n: nat, maxLen: nat, plain: nat, r: E.Receiver, arrivals: seq<E.Arrival>, a: E.Arrival)
    requires r.st.Valid(n) && a in arrivals
    requires var r' := E.Run(n, maxLen, plain, r, arrivals);
             !r'.Stopped() && (if r.keyed then a.Packet? && a.encrypted else !r'.keyed && (a.Packet? ==> !a.encrypted))
    ensures a.Packet? ==> forall f | f in a.fragments :: f in E.Heard(n, maxLen, plain, r, arrivals)
    ensures a.Ccs? ==> E.Run(n, maxLen, plain, r, arrivals).ccs
    decreases |arrivals|
  {
    var first, rest := arrivals[0], arrivals[1..];
    var next := E.Receive(n, maxLen, plain, r, first);
    StatusLasts(n, maxLen, plain, r, arrivals);
    StatusLasts(n, maxLen, plain, next, rest);
    E.RunUnfolds(n, maxLen, plain, r, arrivals);
    if a == first {
      assert a.Packet? ==> E.Hears(r, first) == a.fragments;
    } else {
      assert a in rest;
      AllHeard(n, maxLen, plain, next, rest, a);
    }
  }

  lemma {:induction false} HeardIsGenuine(n: nat, maxLen: nat, flight: E.Flight, r: E.Receiver, arrivals: seq<E.Arrival>)
    requires r.st.Valid(n) && E.AllAuthentic(flight, maxLen, arrivals)
    ensures forall f | f in E.Heard(n, maxLen, flight.plain, r, arrivals) :: flight.Genuine(maxLen, f)
    decreases |arrivals|
  {
    if arrivals != [] {
      hide E.Flight.Genuine, E.Receive, R.State.Valid;
      E.AuthenticParts(flight, maxLen, arrivals);
      HeardIsGenuine(n, maxLen, flight, E.Receive(n, maxLen, flight.plain, r, arrivals[0]), arrivals[1..]);
    }
  }

  /** The record with this piece is among the arrivals. */
  predicate Arrives(outgoing: seq<Outgoing>, flight: E.Flight, p: Piece, arrivals: seq<E.Arrival>)
    requires WellFormedFlight(outgoing)
  {
    (p.Part? ==> p.index < |outgoing| && !outgoing[p.index].isCcs) && ArrivalOf(outgoing, flight, p) in arrivals
  }

  lemma {:induction false} FragmentHasPiece(outgoing: seq<Outgoing>, c: Cursor, pieces: seq<Piece>, f: Fragment)
    returns (p: Piece)
    requires WellFormedFlight(outgoing) && Walk(outgoing, c, pieces).Some? && f in FragmentsOf(outgoing, c, pieces)
    ensures p in pieces && p.Part? && Fits(outgoing, p)
    ensures p.index < |outgoing| && !outgoing[p.index].isCcs && f == FragmentOf(outgoing, p)
    decreases |pieces|
  {
    var front, last := pieces[..|pieces| - 1], pieces[|pieces| - 1];
    if f in FragmentsOf(outgoing, c, front) {
      p := FragmentHasPiece(outgoing, c, front, f);
    } else {
      p := last;
      assert Next(outgoing, Walk(outgoing, c, front).value, p).Some?;
    }
  }

  /** The fragments of a message that arrived while its epoch was current were heard. */
  lemma MessageHeard(n: nat, maxLen: nat, flight: E.Flight, outgoing: seq<Outgoing>, epoch: nat, pieces: seq<Piece>,
                     r: E.Receiver, arrivals: seq<E.Arrival>, k: nat)
    requires r.st.Valid(n) && Queues(outgoing, flight, epoch) && WellFormedFlight(outgoing) && k < |outgoing|
    requires k != flight.plain && Walk(outgoing, Cursor(0, 0), pieces).Some?
    requires !E.Run(n, maxLen, flight.plain, r, arrivals).Stopped()
    requires if k > flight.plain then r.keyed else !r.keyed && !E.Run(n, maxLen, flight.plain, r, arrivals).keyed
    requires forall p | p in pieces && p.index == k :: Arrives(outgoing, flight, p, arrivals)
    ensures forall f | f in FragmentsOf(outgoing, Cursor(0, 0), pieces)
                       && f.header.msgSeq == flight.first + MessageIndex(flight, k) ::
              f in E.Heard(n, maxLen, flight.plain, r, arrivals)
  {
    hide E.Run, E.Heard, R.State.Valid, Queues, Walk, FragmentsOf;
    forall f | f in FragmentsOf(outgoing, Cursor(0, 0), pieces)
               && f.header.msgSeq == flight.first + MessageIndex(flight, k)
      ensures f in E.Heard(n, maxLen, flight.plain, r, arrivals)
    {
      var p := FragmentHasPiece(outgoing, Cursor(0, 0), pieces, f);
      var c :| Next(outgoing, c, p).Some?;
      PieceIsAuthentic(outgoing, flight, epoch, c, p);
      assert p.index == k && Arrives(outgoing, flight, p, arrivals);
      AllHeard(n, maxLen, flight.plain, r, arrivals, E.Packet(p.index > flight.plain, [f]));
      assert f in [f];
    }
  }

  /** A complete transmission has the ChangeCipherSpec, if there is one. */
  lemma TransmissionHasCcs(outgoing: seq<Outgoing>, flight: E.Flight, epoch: nat, pieces: seq<Piece>)
    requires Queues(outgoing, flight, epoch) && WellFormedFlight(outgoing) && flight.plain < |flight.msgs|
    requires Walk(outgoing, Cursor(0, 0), pieces) == Some(Cursor(|outgoing|, 0))
    ensures Ccs(flight.plain) in pieces
  {
    hide Outgoing.WellFormed, Walk;
    assert QueuedAt(outgoing, flight, epoch, flight.plain);
    FullWalkDeliversFlight(outgoing, pieces);
    assert CountOf(pieces, flight.plain) == 1;
    WalkMatters(outgoing, Cursor(0, 0), pieces);
    var p := SomePiece(pieces, flight.plain);
    assert Matters(outgoing, p);
  }

  lemma {:induction false} SomePiece(pieces: seq<Piece>, i: nat) returns (p: Piece)
    requires CountOf(pieces, i) > 0
    ensures p in pieces && p.index == i
    decreases |pieces|
  {
    var last := pieces[|pieces| - 1];
    if last.index == i {
      p := last;
    } else {
      p := SomePiece(pieces[..|pieces| - 1], i);
    }
  }

  /** In step after the plain messages, or stopped with everything handed over. */
  ghost predicate HasPlain(n: nat, flight: E.Flight, r: E.Receiver, history: seq<Fragment>) {
    if r.Stopped() then E.Delivers(flight, r.st) && |r.st.delivered| == |flight.msgs|
    else
      && E.Follows(n, flight, r, history) && |r.st.delivered| >= flight.plain
      && (flight.plain < |flight.msgs| ==> r.keyed)
  }

  /** If the plain records of a complete transmission have arrived, the plain messages are had, and the keys switched. */
  lemma PlainPhase(n: nat, maxLen: nat, flight: E.Flight, outgoing: seq<Outgoing>, epoch: nat, pieces: seq<Piece>,
                   before: seq<E.Arrival>)
    returns (history: seq<Fragment>)
    requires flight.Valid(n) && Queues(outgoing, flight, epoch) && WellFormedFlight(outgoing)
    requires Walk(outgoing, Cursor(0, 0), pieces) == Some(Cursor(|outgoing|, 0))
    requires E.AllAuthentic(flight, maxLen, before)
    requires forall p | p in pieces && p.index <= flight.plain :: Arrives(outgoing, flight, p, before)
    ensures E.Begin(flight.first).st.Valid(n)
    ensures HasPlain(n, flight, E.Run(n, maxLen, flight.plain, E.Begin(flight.first), before + E.Asks(flight.plain) + [E.Switch]),
                     history)
    ensures forall f | f in history :: flight.Genuine(maxLen, f)
  {
    var r, plain := E.Begin(flight.first), flight.plain;
    history := E.Heard(n, maxLen, plain, r, before);
    E.BeginFollows(n, flight);
    hide E.Follows, E.Run, E.Heard, E.EverRepeats, E.Delivers, E.Asks, E.Receive, E.Flight.Genuine, Walk, Queues,
         WellFormedFlight, E.Covered, E.AllAuthentic, R.State.Valid;
    E.RunFollows(n, maxLen, flight, r, [], before);
    assert [] + history == history;
    HeardIsGenuine(n, maxLen, flight, r, before);
    var rb := E.Run(n, maxLen, plain, r, before);
    E.RunConcat(n, maxLen, plain, r, before, E.Asks(plain) + [E.Switch]);
    SameArrivals(before, E.Asks(plain), [E.Switch]);
    if E.EverRepeats(n, maxLen, plain, r, before) {
      StatusLasts(n, maxLen, plain, rb, E.Asks(plain) + [E.Switch]);
    } else {
      hide HasPlain;
      E.StillRuns(n, flight, rb, history);
      if !rb.keyed {
        PlainIsCovered(n, maxLen, flight, outgoing, epoch, pieces, before);
        if plain < |flight.msgs| {
          CcsIsNoted(n, maxLen, flight, outgoing, epoch, pieces, before);
        }
      }
      AsksThenSwitch(n, maxLen, flight, rb, history);
    }
  }

  lemma SameArrivals(a: seq<E.Arrival>, b: seq<E.Arrival>, c: seq<E.Arrival>)
    ensures a + b + c == a + (b + c)
  {
  }

  /** With the plain messages all there, asking for them and switching the keys succeeds. */
  lemma AsksThenSwitch(n: nat, maxLen: nat, flight: E.Flight, r: E.Receiver, history: seq<Fragment>)
    requires flight.Valid(n) && E.Follows(n, flight, r, history)
    requires !r.keyed ==> forall s | flight.first <= s < flight.first + flight.plain :: E.Covered(flight, history, s)
    requires flight.plain < |flight.msgs| ==> r.keyed || r.ccs
    ensures r.st.Valid(n)
    ensures HasPlain(n, flight, E.Run(n, maxLen, flight.plain, r, E.Asks(flight.plain) + [E.Switch]), history)
  {
    var plain := flight.plain;
    E.FollowsIsValid(n, flight, r, history);
    hide E.Follows, E.Run, E.Asks, E.Receive, E.Covered, R.State.Valid;
    E.RunConcat(n, maxLen, plain, r, E.Asks(plain), [E.Switch]);
    if r.keyed {
      KeyedHasPlain(n, flight, r, history);
      StatusLasts(n, maxLen, plain, r, E.Asks(plain));
      E.Drain(n, maxLen, flight, r, history, 0, plain);
    } else {
      E.Drain(n, maxLen, flight, r, history, plain, plain);
    }
    SwitchLast(n, maxLen, flight, E.Run(n, maxLen, plain, r, E.Asks(plain)), history);
  }

  lemma KeyedHasPlain(n: nat, flight: E.Flight, r: E.Receiver, history: seq<Fragment>)
    requires E.Follows(n, flight, r, history) && r.keyed
    ensures |r.st.delivered| >= flight.plain
  {
  }

  lemma SwitchLast(n: nat, maxLen: nat, flight: E.Flight, r: E.Receiver, history: seq<Fragment>)
    requires flight.Valid(n) && E.Follows(n, flight, r, history) && |r.st.delivered| >= flight.plain
    requires flight.plain < |flight.msgs| ==> r.keyed || r.ccs
    ensures r.st.Valid(n)
    ensures HasPlain(n, flight, E.Run(n, maxLen, flight.plain, r, [E.Switch]), history)
  {
    hide E.SlotsFollow, E.Delivers;
    E.SwitchFollows(n, maxLen, flight, r, history);
    assert [E.Switch][1..] == [];
  }

  lemma PlainMessageIsCovered(n: nat, maxLen: nat, flight: E.Flight, outgoing: seq<Outgoing>, epoch: nat, pieces: seq<Piece>,
                              before: seq<E.Arrival>, k: nat)
    requires flight.Valid(n) && Queues(outgoing, flight, epoch) && WellFormedFlight(outgoing)
    requires Walk(outgoing, Cursor(0, 0), pieces) == Some(Cursor(|outgoing|, 0))
    requires E.AllAuthentic(flight, maxLen, before) && E.Begin(flight.first).st.Valid(n)
    requires forall p | p in pieces && p.index <= flight.plain :: Arrives(outgoing, flight, p, before)
    requires var rb := E.Run(n, maxLen, flight.plain, E.Begin(flight.first), before); !rb.Stopped() && !rb.keyed
    requires k < flight.plain
    ensures E.Covered(flight, E.Heard(n, maxLen, flight.plain, E.Begin(flight.first), before), flight.first + k)
  {
    var r := E.Begin(flight.first);
    hide E.Run, E.Heard, E.Flight.Genuine, Walk, WellFormedFlight, E.AllAuthentic, R.State.Valid, FragmentsOf, QueuedAt,
         E.Covered;
    HeardIsGenuine(n, maxLen, flight, r, before);
    MessageHeard(n, maxLen, flight, outgoing, epoch, pieces, r, before, k);
    TransmissionCovers(flight, outgoing, epoch, pieces, maxLen, E.Heard(n, maxLen, flight.plain, r, before), k);
  }

  lemma PlainIsCovered(n: nat, maxLen: nat, flight: E.Flight, outgoing: seq<Outgoing>, epoch: nat, pieces: seq<Piece>,
                       before: seq<E.Arrival>)
    requires flight.Valid(n) && Queues(outgoing, flight, epoch) && WellFormedFlight(outgoing)
    requires Walk(outgoing, Cursor(0, 0), pieces) == Some(Cursor(|outgoing|, 0))
    requires E.AllAuthentic(flight, maxLen, before) && E.Begin(flight.first).st.Valid(n)
    requires forall p | p in pieces && p.index <= flight.plain :: Arrives(outgoing, flight, p, before)
    requires var rb := E.Run(n, maxLen, flight.plain, E.Begin(flight.first), before); !rb.Stopped() && !rb.keyed
    ensures var history := E.Heard(n, maxLen, flight.plain, E.Begin(flight.first), before);
            forall s | flight.first <= s < flight.first + flight.plain :: E.Covered(flight, history, s)
  {
    hide E.Run, E.Heard, Walk, WellFormedFlight, E.AllAuthentic, R.State.Valid, Queues, Arrives, E.Covered;
    forall s | flight.first <= s < flight.first + flight.plain
      ensures E.Covered(flight, E.Heard(n, maxLen, flight.plain, E.Begin(flight.first), before), s)
    {
      PlainMessageIsCovered(n, maxLen, flight, outgoing, epoch, pieces, before, s - flight.first);
    }
  }

  lemma CcsIsNoted(n: nat, maxLen: nat, flight: E.Flight, outgoing: seq<Outgoing>, epoch: nat, pieces: seq<Piece>,
                   before: seq<E.Arrival>)
    requires flight.Valid(n) && Queues(outgoing, flight, epoch) && WellFormedFlight(outgoing)
    requires Walk(outgoing, Cursor(0, 0), pieces) == Some(Cursor(|outgoing|, 0))
    requires E.Begin(flight.first).st.Valid(n) && flight.plain < |flight.msgs|
    requires forall p | p in pieces && p.index <= flight.plain :: Arrives(outgoing, flight, p, before)
    requires var rb := E.Run(n, maxLen, flight.plain, E.Begin(flight.first), before); !rb.Stopped() && !rb.keyed
    ensures E.Run(n, maxLen, flight.plain, E.Begin(flight.first), before).ccs
  {
    hide E.Run, Walk, Queues, WellFormedFlight, R.State.Valid;
    TransmissionHasCcs(outgoing, flight, epoch, pieces);
    assert Arrives(outgoing, flight, Ccs(flight.plain), before);
    AllHeard(n, maxLen, flight.plain, E.Begin(flight.first), before, E.Ccs);
  }

  /**
   Main result.  If the records of one complete transmission of a flight are among those that
   arrive, in any order, repeated, and mixed with records of other transmissions cut in other
   ways and of earlier flights, with those in the new epoch arriving once the keys have been
   switched, the receiver hands over every message of the flight as it was queued.
   */
  lemma OneTransmissionSuffices(n: nat, maxLen: nat, flight: E.Flight, outgoing: seq<Outgoing>, epoch: nat,
                                pieces: seq<Piece>, before: seq<E.Arrival>, after: seq<E.Arrival>)
    requires flight.Valid(n) && Queues(outgoing, flight, epoch) && WellFormedFlight(outgoing)
    requires Walk(outgoing, Cursor(0, 0), pieces) == Some(Cursor(|outgoing|, 0))
    requires E.AllAuthentic(flight, maxLen, before) && E.AllAuthentic(flight, maxLen, after)
    requires forall p | p in pieces ::
               Arrives(outgoing, flight, p, if p.index <= flight.plain then before else after)
    ensures E.Begin(flight.first).st.Valid(n)
    ensures var all := before + E.Asks(flight.plain) + [E.Switch] + after + E.Asks(1);
            E.Run(n, maxLen, flight.plain, E.Begin(flight.first), all).st.delivered
            == seq(|flight.msgs|, k requires 0 <= k < |flight.msgs| => flight.msgs[k].Raw(flight.first + k))
  {
    var r, plain := E.Begin(flight.first), flight.plain;
    E.BeginFollows(n, flight);
    var history := PlainPhase(n, maxLen, flight, outgoing, epoch, pieces, before);
    var first := before + E.Asks(plain) + [E.Switch];
    var r1 := E.Run(n, maxLen, plain, r, first);
    E.RunConcat(n, maxLen, plain, r, first + after, E.Asks(1));
    E.RunConcat(n, maxLen, plain, r, first, after);
    assert first + after + E.Asks(1) == before + E.Asks(flight.plain) + [E.Switch] + after + E.Asks(1);
    LastPhase(n, maxLen, flight, outgoing, epoch, pieces, r1, history, after);
  }

  lemma LastPhase(n: nat, maxLen: nat, flight: E.Flight, outgoing: seq<Outgoing>, epoch: nat, pieces: seq<Piece>,
                  r: E.Receiver, history: seq<Fragment>, after: seq<E.Arrival>)
    requires flight.Valid(n) && Queues(outgoing, flight, epoch) && WellFormedFlight(outgoing)
    requires Walk(outgoing, Cursor(0, 0), pieces) == Some(Cursor(|outgoing|, 0))
    requires r.st.Valid(n) && HasPlain(n, flight, r, history) && E.AllAuthentic(flight, maxLen, after)
    requires forall f | f in history :: flight.Genuine(maxLen, f)
    requires forall p | p in pieces && p.index > flight.plain :: Arrives(outgoing, flight, p, after)
    ensures E.Run(n, maxLen, flight.plain, E.Run(n, maxLen, flight.plain, r, after), E.Asks(1)).st.delivered
            == seq(|flight.msgs|, k requires 0 <= k < |flight.msgs| => flight.msgs[k].Raw(flight.first + k))
  {
    var plain := flight.plain;
    hide E.Run, E.Heard, E.EverRepeats, E.Asks, E.Receive, E.Flight.Genuine, Walk, WellFormedFlight, E.AllAuthentic,
         R.State.Valid, E.SlotsFollow, E.AllPlain, FragmentsOf, E.Message.Raw, QueuedAt, E.Covered;
    var r2 := E.Run(n, maxLen, plain, r, after);
    StatusLasts(n, maxLen, plain, r, after);
    StatusLasts(n, maxLen, plain, r2, E.Asks(1));
    if !r.Stopped() {
      E.RunFollows(n, maxLen, flight, r, history, after);
      var more := history + E.Heard(n, maxLen, plain, r, after);
      if !E.EverRepeats(n, maxLen, plain, r, after) {
        if plain < |flight.msgs| {
          MessageHeard(n, maxLen, flight, outgoing, epoch, pieces, r, after, plain + 1);
          HeardIsGenuine(n, maxLen, flight, r, after);
          TransmissionCovers(flight, outgoing, epoch, pieces, maxLen, more, plain + 1);
        }
        E.Drain(n, maxLen, flight, r2, more, |flight.msgs|, 1);
      }
    }
  }
}
