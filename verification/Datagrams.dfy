/**
 Datagrams from one side's records to the other's: a packet of sealed records, opened record
 by record, yields the plaintexts of those that the replay window lets through.
 */
module Datagrams {
  import opened Bits
  import opened Wrappers
  import opened Wire
  import opened ReplayWindow
  import opened RecordLayer
  import FlightSender

  /** The bytes of a datagram that a verdict has used up. */
  function Used(v: Verdict, input: seq<byte>): nat {
    match v
    case CloseNotify => |input|
    case Partial => |input|
    case Discard(consumed) => consumed
    case RecordOverflow(consumed) => |input|
    case Alert(_, consumed) => consumed
    case Opened(_, _, consumed) => consumed
  }

  lemma UsedIsPositive(st: ReadState, accepted: set<nat>, input: seq<byte>, open: SealFn)
    requires input != []
    ensures 0 < Used(Decide(st, accepted, input, open), input) <= |input|
  {
  }

  /** The records of a datagram that open, with the window moving on; the caller's loop over dtls_open_record. */
  ghost function OpenAll(st: ReadState, accepted: set<nat>, input: seq<byte>, open: SealFn): seq<Verdict>
    decreases |input|
  {
    if input == [] then []
    else
      var v := Decide(st, accepted, input, open);
      UsedIsPositive(st, accepted, input, open);
      var rest := input[Used(v, input)..];
      if v.Recorded() && ParseRecord(input).Some? then
        [v] + OpenAll(st, accepted + {FromBigEndian(ParseRecord(input).value.0.sequence)}, rest, open)
      else OpenAll(st, accepted, rest, open)
  }

  /** The number the window knows a record by. */
  function NumberOf(r: Sealed): nat {
    FromBigEndian(SequenceBytes(r.epoch, r.number))
  }

  /** A record of the reader's epoch that its keys open. */
  ghost predicate Openable(st: ReadState, seal: SealFn, open: SealFn, version: nat, r: Sealed) {
    && SealedBy(seal, version, r) && r.epoch == st.epoch < 0x10000
    && r.kind != ALERT && |r.plaintext| <= MAX_PLAIN_LENGTH
    && var sequence := SequenceBytes(r.epoch, r.number);
       var ciphertext := seal(r.kind, version, sequence, r.plaintext).value;
       |ciphertext| <= MAX_ENCRYPTED_LENGTH && open(r.kind, version, sequence, ciphertext) == Some(r.plaintext)
  }

  /** The records whose numbers are neither seen nor too old when their turn comes. */
  ghost function Fresh(accepted: set<nat>, rs: seq<Sealed>): seq<Verdict>
    decreases |rs|
  {
    if rs == [] then []
    else if Stale(accepted, NumberOf(rs[0])) then Fresh(accepted, rs[1..])
    else [Opened(rs[0].kind, rs[0].plaintext, |rs[0].wire|)] + Fresh(accepted + {NumberOf(rs[0])}, rs[1..])
  }

  lemma FrontOpens(st: ReadState, accepted: set<nat>, seal: SealFn, open: SealFn, version: nat, r: Sealed, rest: seq<byte>)
    requires Openable(st, seal, open, version, r) && version < 0x10000 && !st.closed
    requires if st.nullCipher then version / 256 == 0xfe else version == st.recordVersion
    ensures OpenAll(st, accepted, r.wire + rest, open)
         == if Stale(accepted, NumberOf(r)) then OpenAll(st, accepted, rest, open)
            else [Opened(r.kind, r.plaintext, |r.wire|)] + OpenAll(st, accepted + {NumberOf(r)}, rest, open)
  {
    hide Stale, Decide, ParseRecord, BigEndian, FromBigEndian;
    var input := r.wire + rest;
    SealedRecordOpens(st, accepted, seal, open, version, r, rest);
    ParseRecordBytes(r.kind, version, r.epoch, r.number,
                     seal(r.kind, version, SequenceBytes(r.epoch, r.number), r.plaintext).value, rest);
    assert |r.wire| >= RECORD_HEADER_LENGTH;
    assert input[|r.wire|..] == rest;
  }

  /** Main result: what a packet of sealed records yields is exactly its fresh records, in order. */
  lemma {:induction false} PacketOpens(st: ReadState, accepted: set<nat>, seal: SealFn, open: SealFn, version: nat,
                                       rs: seq<Sealed>)
    requires version < 0x10000 && !st.closed
    requires if st.nullCipher then version / 256 == 0xfe else version == st.recordVersion
    requires forall r | r in rs :: Openable(st, seal, open, version, r)
    ensures OpenAll(st, accepted, FlightSender.Wires(rs), open) == Fresh(accepted, rs)
    decreases |rs|
  {
    hide Openable, Stale, OpenAll;
    if rs == [] {
      NothingOpens(st, accepted, open);
    } else {
      var r, rest := rs[0], rs[1..];
      FlightSender.WiresConcat([r], rest);
      FlightSender.WiresAppend([], r);
      assert [r] + rest == rs && [] + [r] == [r];
      assert FlightSender.Wires(rs) == r.wire + FlightSender.Wires(rest);
      FrontOpens(st, accepted, seal, open, version, r, FlightSender.Wires(rest));
      PacketOpens(st, accepted, seal, open, version, rest);
      PacketOpens(st, accepted + {NumberOf(r)}, seal, open, version, rest);
    }
  }

  lemma NothingOpens(st: ReadState, accepted: set<nat>, open: SealFn)
    ensures OpenAll(st, accepted, [], open) == []
  {
  }

  ghost predicate Increasing(rs: seq<Sealed>) {
    forall i, j | 0 <= i < j < |rs| :: NumberOf(rs[i]) < NumberOf(rs[j])
  }

  lemma NewIsFresh(accepted: set<nat>, n: nat)
    requires forall m | m in accepted :: m < n
    ensures !Stale(accepted, n)
  {
  }

  lemma RestIsNew(accepted: set<nat>, rs: seq<Sealed>)
    requires rs != [] && Increasing(rs) && forall m, r | m in accepted && r in rs :: m < NumberOf(r)
    ensures Increasing(rs[1..])
    ensures forall m, r | m in accepted + {NumberOf(rs[0])} && r in rs[1..] :: m < NumberOf(r)
  {
    hide NumberOf;
    var rest := rs[1..];
    assert forall i | 0 <= i < |rest| :: rest[i] == rs[i + 1];
    forall m, q | m in accepted + {NumberOf(rs[0])} && q in rest
      ensures m < NumberOf(q)
    {
      var i :| 0 <= i < |rest| && rest[i] == q;
      assert rs[i + 1] == q;
    }
  }

  /** Records numbered upwards from beyond everything accepted all get through. */
  lemma {:induction false} NewRecordsAreFresh(accepted: set<nat>, rs: seq<Sealed>)
    requires Increasing(rs) && forall m, r | m in accepted && r in rs :: m < NumberOf(r)
    ensures Fresh(accepted, rs) == seq(|rs|, i requires 0 <= i < |rs| => Opened(rs[i].kind, rs[i].plaintext, |rs[i].wire|))
    decreases |rs|
  {
    if rs != [] {
      RestIsNew(accepted, rs);
      assert rs[0] in rs;
      NewIsFresh(accepted, NumberOf(rs[0]));
      hide NumberOf, Increasing, Stale;
      NewRecordsAreFresh(accepted + {NumberOf(rs[0])}, rs[1..]);
    }
  }
}
