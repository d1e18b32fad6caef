/**
 The receiver's ring buffer of partly reassembled messages, as the objects and arrays of
 DTLS1_STATE.  Each method is the corresponding step of the state machine in Reassembly.
 */
module Receiver {
  import opened Bits
  import opened Wrappers
  import opened Wire
  import opened Coverage
  import opened Reassembly

  // The ring of places, as a value

  datatype Slot = Slot(msgSeq: nat, part: Partial)

  /** Place i holds nothing, or a message of the window that belongs there. */
  ghost predicate SlotOk(slot: Option<Slot>, i: nat, n: nat, readSeq: nat) {
    slot.Some? ==>
      && n > 0 && slot.value.msgSeq % n == i
      && readSeq <= slot.value.msgSeq < readSeq + n && slot.value.msgSeq < 0x10000
      && slot.value.part.Valid(slot.value.msgSeq)
  }

  ghost predicate SlotsOk(slots: seq<Option<Slot>>, readSeq: nat) {
    && |slots| > 0 && readSeq < 0x10000
    && forall i | 0 <= i < |slots| :: SlotOk(slots[i], i, |slots|, readSeq)
  }

  ghost predicate Holds(slots: seq<Option<Slot>>, readSeq: nat, s: nat)
    requires |slots| > 0
  {
    readSeq <= s && slots[s % |slots|].Some? && slots[s % |slots|].value.msgSeq == s
  }

  ghost function RingOf(slots: seq<Option<Slot>>, readSeq: nat): Ring
    requires SlotsOk(slots, readSeq)
  {
    Ring(readSeq, map s: nat | s < readSeq + |slots| && Holds(slots, readSeq, s) :: slots[s % |slots|].value.part)
  }

  lemma RingOfIsValid(slots: seq<Option<Slot>>, readSeq: nat)
    requires SlotsOk(slots, readSeq)
    ensures RingOf(slots, readSeq).Valid(|slots|)
  {
    var r := RingOf(slots, readSeq);
    forall s | s in r.slots
      ensures readSeq <= s < readSeq + |slots| && s < 0x10000 && r.slots[s].Valid(s)
    {
      assert SlotOk(slots[s % |slots|], s % |slots|, |slots|, readSeq);
    }
  }

  /** An occupied place holds the very message a fragment with that residue belongs to. */
  lemma OccupantMatches(slots: seq<Option<Slot>>, readSeq: nat, s: nat)
    requires SlotsOk(slots, readSeq) && readSeq <= s < readSeq + |slots|
    ensures slots[s % |slots|].Some? <==> s in RingOf(slots, readSeq).slots
    ensures slots[s % |slots|].Some? ==> slots[s % |slots|].value.msgSeq == s
  {
    hide Partial.Valid;
    var i := s % |slots|;
    assert SlotOk(slots[i], i, |slots|, readSeq);
    if slots[i].Some? {
      WindowIsInjective(|slots|, readSeq, slots[i].value.msgSeq, s);
    }
  }

  lemma PutSlot(slots: seq<Option<Slot>>, readSeq: nat, slot: Slot)
    requires SlotsOk(slots, readSeq)
    requires SlotOk(Some(slot), slot.msgSeq % |slots|, |slots|, readSeq)
    ensures var slots' := slots[slot.msgSeq % |slots| := Some(slot)];
            && SlotsOk(slots', readSeq)
            && RingOf(slots', readSeq).slots == RingOf(slots, readSeq).slots[slot.msgSeq := slot.part]
  {
    hide Partial.Valid;
    var n := |slots|;
    var idx := slot.msgSeq % n;
    var slots' := slots[idx := Some(slot)];
    forall s: nat | readSeq <= s < readSeq + n
      ensures Holds(slots', readSeq, s) <==> s == slot.msgSeq || Holds(slots, readSeq, s)
      ensures s != slot.msgSeq && Holds(slots, readSeq, s) ==> slots'[s % n] == slots[s % n]
    {
      OccupantMatches(slots, readSeq, s);
      if s % n == idx {
        WindowIsInjective(n, readSeq, s, slot.msgSeq);
      }
    }
  }

  /** Every message but the current one lies in the next window too. */
  lemma SlotStaysOk(slot: Option<Slot>, i: nat, n: nat, readSeq: nat)
    requires n > 0 && readSeq < 0x10000
    requires SlotOk(slot, i, n, readSeq) && i != readSeq % n
    ensures SlotOk(slot, i, n, (readSeq + 1) % 0x10000)
  {
    if slot.Some? {
      assert slot.value.msgSeq != readSeq;
    }
  }

  lemma DropKeepsSlots(slots: seq<Option<Slot>>, readSeq: nat)
    requires SlotsOk(slots, readSeq)
    ensures SlotsOk(slots[readSeq % |slots| := None], (readSeq + 1) % 0x10000)
  {
    var slots' := slots[readSeq % |slots| := None];
    forall i | 0 <= i < |slots'|
      ensures SlotOk(slots'[i], i, |slots'|, (readSeq + 1) % 0x10000)
    {
      if i != readSeq % |slots| {
        SlotStaysOk(slots[i], i, |slots|, readSeq);
      }
    }
  }

  lemma DropHolds(slots: seq<Option<Slot>>, readSeq: nat, s: nat)
    requires SlotsOk(slots, readSeq) && readSeq in RingOf(slots, readSeq).slots
    ensures Holds(slots[readSeq % |slots| := None], (readSeq + 1) % 0x10000, s)
       <==> s != readSeq && s < readSeq + |slots| && Holds(slots, readSeq, s)
    ensures s != readSeq && s < readSeq + |slots| && Holds(slots, readSeq, s) ==>
              slots[readSeq % |slots| := None][s % |slots|] == slots[s % |slots|]
  {
    hide Partial.Valid;
    var n := |slots|;
    assert SlotOk(slots[s % n], s % n, n, readSeq);
    if s != readSeq && readSeq <= s < readSeq + n && s % n == readSeq % n {
      WindowIsInjective(n, readSeq, s, readSeq);
    }
  }

  /** Message s after the current place was emptied and the window moved on. */
  lemma DropPoint(slots: seq<Option<Slot>>, readSeq: nat, s: nat)
    requires SlotsOk(slots, readSeq) && readSeq in RingOf(slots, readSeq).slots
    ensures var slots', next := slots[readSeq % |slots| := None], (readSeq + 1) % 0x10000;
            && SlotsOk(slots', next)
            && (s in RingOf(slots', next).slots <==> s != readSeq && s in RingOf(slots, readSeq).slots)
            && (s in RingOf(slots', next).slots ==> RingOf(slots', next).slots[s] == RingOf(slots, readSeq).slots[s])
  {
    SomePlaces(slots, readSeq);
    hide SlotsOk, RingOf, Partial.Valid, Holds;
    DropKeepsSlots(slots, readSeq);
    DropHolds(slots, readSeq, s);
    SlotInWindow(slots[readSeq % |slots| := None], (readSeq + 1) % 0x10000, s);
    SlotInWindow(slots, readSeq, s);
  }

  /** Emptying the current place and advancing is the Next step of the ring. */
  lemma DropCurrent(slots: seq<Option<Slot>>, readSeq: nat)
    requires SlotsOk(slots, readSeq) && readSeq in RingOf(slots, readSeq).slots
    ensures var slots' := slots[readSeq % |slots| := None];
            && SlotsOk(slots', (readSeq + 1) % 0x10000)
            && RingOf(slots', (readSeq + 1) % 0x10000) == RingOf(slots, readSeq).Next()
  {
    hide SlotsOk, RingOf, SlotOk, Partial.Valid, Holds;
    SomePlaces(slots, readSeq);
    DropPoint(slots, readSeq, readSeq);
    var slots', next := slots[readSeq % |slots| := None], (readSeq + 1) % 0x10000;
    SlotInWindow(slots', next, readSeq);
    SlotInWindow(slots, readSeq, readSeq);
    var mine, theirs := RingOf(slots', next).slots, RingOf(slots, readSeq).slots - {readSeq};
    forall s: nat
      ensures s in mine <==> s in theirs
      ensures s in mine ==> mine[s] == theirs[s]
    {
      DropPoint(slots, readSeq, s);
    }
    assert mine == theirs;
  }

  lemma SomePlaces(slots: seq<Option<Slot>>, readSeq: nat)
    requires SlotsOk(slots, readSeq)
    ensures |slots| > 0
  {
  }

  lemma SlotInWindow(slots: seq<Option<Slot>>, readSeq: nat, s: nat)
    requires SlotsOk(slots, readSeq)
    ensures RingOf(slots, readSeq).readSeq == readSeq
    ensures Holds(slots, readSeq, s) <==> s in RingOf(slots, readSeq).slots
    ensures s in RingOf(slots, readSeq).slots ==>
              && readSeq <= s < readSeq + |slots| && slots[s % |slots|].Some?
              && RingOf(slots, readSeq).slots[s] == slots[s % |slots|].value.part
  {
    hide Partial.Valid;
    assert SlotOk(slots[s % |slots|], s % |slots|, |slots|, readSeq);
  }

  /** Storing a fragment in the place of its message is the Accept step of the ring. */
  lemma AcceptInSlots(c: Config, slots: seq<Option<Slot>>, readSeq: nat, f: Fragment, p: Partial)
    requires SlotsOk(slots, readSeq) && |slots| == c.n && f.Fits() && SizeOk(c, f.header)
    requires readSeq <= f.header.msgSeq && (c.encrypted ==> f.header.msgSeq == readSeq)
    requires Incoming(c.n, RingOf(slots, readSeq), f.header) == Found(p)
    ensures p.Valid(f.header.msgSeq) && f.header.fragOff + |f.body| <= p.msgLen
    ensures var q := if p.Complete() then p else p.Store(f);
            var slots' := slots[f.header.msgSeq % c.n := Some(Slot(f.header.msgSeq, q))];
            && SlotsOk(slots', readSeq)
            && RingOfIsRing(c, slots, readSeq)
            && (RingOf(slots', readSeq), None) == Accept(c, RingOf(slots, readSeq), f)
  {
    RingOfIsValid(slots, readSeq);
    EmptyIsValid(f.header);
    StoreKeepsValid(p, f);
    PutSlot(slots, readSeq, Slot(f.header.msgSeq, if p.Complete() then p else p.Store(f)));
  }

  ghost predicate RingOfIsRing(c: Config, slots: seq<Option<Slot>>, readSeq: nat) {
    |slots| == c.n && SlotsOk(slots, readSeq) && RingOf(slots, readSeq).Valid(c.n)
  }

  lemma CurrentSlot(slots: seq<Option<Slot>>, readSeq: nat)
    requires SlotsOk(slots, readSeq)
    ensures var r, here := RingOf(slots, readSeq), slots[readSeq % |slots|];
            && r.readSeq == readSeq
            && (here.Some? <==> readSeq in r.slots)
            && (here.Some? ==> here.value == Slot(readSeq, r.slots[readSeq]))
  {
    OccupantMatches(slots, readSeq, readSeq);
  }

  /** Scanning every place but the current one finds whether another message is stored. */
  lemma OtherSlots(slots: seq<Option<Slot>>, readSeq: nat, skip: bool)
    requires SlotsOk(slots, readSeq)
    ensures (exists i :: 0 <= i < |slots| && !(skip && i == readSeq % |slots|) && slots[i].Some?)
       <==> (exists s :: s in RingOf(slots, readSeq).slots && !(skip && s == readSeq))
  {
    var n := |slots|;
    if i :| 0 <= i < n && !(skip && i == readSeq % n) && slots[i].Some? {
      assert SlotOk(slots[i], i, n, readSeq);
      OccupantMatches(slots, readSeq, slots[i].value.msgSeq);
      assert slots[i].value.msgSeq in RingOf(slots, readSeq).slots;
    }
    if s :| s in RingOf(slots, readSeq).slots && !(skip && s == readSeq) {
      OccupantMatches(slots, readSeq, s);
      if s % n == readSeq % n {
        WindowIsInjective(n, readSeq, s, readSeq);
      }
      assert slots[s % n].Some?;
    }
  }

  // The objects

  /** The objects a place owns. */
  ghost function Owned(f: HmFragment?): (s: set<object>)
    reads f
    ensures f != null ==> f in s
  {
    if f == null then {}
    else
      var owner: HmFragment := f;
      var bitmap: set<object> := if f.reassembly == null then {} else {f.reassembly};
      {owner, owner.data} + bitmap
  }

  ghost function PartialOf(f: HmFragment): Partial
    reads f, f.data, f.reassembly
    requires f.Valid()
  {
    Partial(f.msgType, f.msgLen, f.data[..], f.Received())
  }

  /** A message has lost its bitmap exactly when it is complete. */
  lemma BitmapGoneIffComplete(f: HmFragment)
    requires f.Valid()
    ensures f.reassembly == null <==> PartialOf(f).Complete()
  {
  }

  lemma PartialLength(f: HmFragment)
    requires f.Valid()
    ensures PartialOf(f).msgLen == f.msgLen
  {
  }

  ghost predicate Tied(f: HmFragment?, slot: Option<Slot>)
    reads Owned(f)
  {
    if f == null then slot.None?
    else f.Valid() && slot == Some(Slot(f.msgSeq, PartialOf(f)))
  }

  method StoreFragment(frag: HmFragment, f: Fragment)
    requires frag.Valid() && frag.reassembly != null && f.header.fragOff + |f.body| <= frag.msgLen
    modifies Owned(frag)
    ensures frag.Valid() && Owned(frag) <= old(Owned(frag))
    ensures PartialOf(frag) == old(PartialOf(frag)).Store(f)
  {
    frag.Write(f.header.fragOff, f.body);
    frag.Mark(f.header.fragOff, f.header.fragOff + |f.body|);
  }

  const CHANGE_CIPHER_SPEC: nat := 20
  const HANDSHAKE: nat := 22
  const APPLICATION_DATA: nat := 23

  datatype OpenResult = Success | Discard | Failed

  class MessageRing {
    const n: nat
    const incoming: array<HmFragment?>
    var readSeq: nat
    var hasMessage: bool
    var hasChangeCipherSpec: bool
    ghost var slots: seq<Option<Slot>>
    ghost var Repr: set<object>

    ghost predicate Valid()
      reads this, Repr
    {
      && this in Repr && incoming in Repr
      && n > 0 && incoming.Length == n == |slots|
      && (forall i | 0 <= i < n && incoming[i] != null :: incoming[i] in Repr)
      && (forall i | 0 <= i < n :: Owned(incoming[i]) <= Repr - {this, incoming})
      && (forall i | 0 <= i < n :: Tied(incoming[i], slots[i]))
      && (forall i, j | 0 <= i < j < n :: Owned(incoming[i]) !! Owned(incoming[j]))
      && SlotsOk(slots, readSeq)
    }

    ghost function View(): (r: Ring)
      reads this, Repr
      requires Valid()
      ensures r.Valid(n)
    {
      RingOfIsValid(slots, readSeq);
      RingOf(slots, readSeq)
    }

    constructor (n: nat, readSeq: nat)
      requires n > 0 && readSeq < 0x10000
      ensures Valid() && fresh(Repr) && this.n == n
      ensures View() == Ring(readSeq, map[])
      ensures !hasMessage && !hasChangeCipherSpec
    {
      this.n, this.readSeq := n, readSeq;
      hasMessage, hasChangeCipherSpec := false, false;
      incoming := new HmFragment?[n](_ => null);
      slots := seq(n, _ => None);
      new;
      Repr := {this, incoming};
    }

    method Place(idx: nat, frag: HmFragment)
      requires Valid() && idx < n && incoming[idx] == null
      requires frag.Valid() && Owned(frag) !! Repr
      requires SlotsOk(slots[idx := Some(Slot(frag.msgSeq, PartialOf(frag)))], readSeq)
      modifies incoming, this`Repr, this`slots
      ensures Valid() && Repr == old(Repr) + Owned(frag)
      ensures incoming[..] == old(incoming[..])[idx := frag]
      ensures slots == old(slots)[idx := Some(Slot(frag.msgSeq, PartialOf(frag)))]
    {
      hide SlotsOk, HmFragment.Valid, PartialOf;
      incoming[idx] := frag;
      Repr := Repr + Owned(frag);
      slots := slots[idx := Some(Slot(frag.msgSeq, PartialOf(frag)))];
    }

    /**
     dtls1_get_incoming_message: finds the message a fragment belongs to, or makes an empty
     one if this is its first fragment, and checks that the two agree.
     */
    method GetIncomingMessage(h: Header) returns (frag: HmFragment?, error: Option<Error>)
      requires Valid() && h.Fits() && readSeq <= h.msgSeq
      modifies Repr
      ensures Valid() && fresh(Repr - old(Repr)) && readSeq == old(readSeq)
      ensures hasMessage == old(hasMessage) && hasChangeCipherSpec == old(hasChangeCipherSpec)
      ensures match Incoming(n, old(View()), h)
              case Rejected(e) => error == Some(e) && slots == old(slots)
              case Found(p) =>
                && error == None && frag != null && frag == incoming[h.msgSeq % n]
                && slots == old(slots)[h.msgSeq % n := Some(Slot(h.msgSeq, p))]
    {
      hide SlotsOk, Partial.Valid, HmFragment.Valid, Holds, Ring.Valid;
      if h.msgSeq - readSeq >= n {
        return null, Some(OutsideWindow);
      }
      var idx := h.msgSeq % n;
      frag := incoming[idx];
      assert Tied(frag, slots[idx]);
      OccupantMatches(slots, readSeq, h.msgSeq);
      if frag != null {
        assert frag.msgSeq == h.msgSeq;
        if frag.msgType != h.msgType || frag.msgLen != h.msgLen {
          return frag, Some(FragmentMismatch);
        }
        return frag, None;
      }
      frag := NewFragment(h);
      EmptyIsValid(h);
      PutSlot(slots, readSeq, Slot(h.msgSeq, Reassembly.Empty(h)));
      Place(idx, frag);
      return frag, None;
    }

    /** Copies the body of a fragment into the incomplete message at place idx. */
    method StoreAt(idx: nat, f: Fragment, ghost p: Partial)
      requires Valid() && idx < n && slots[idx] == Some(Slot(f.header.msgSeq, p))
      requires !p.Complete() && f.header.fragOff + |f.body| <= p.msgLen && p.Valid(f.header.msgSeq)
      requires SlotsOk(slots[idx := Some(Slot(f.header.msgSeq, p.Store(f)))], readSeq)
      modifies Repr
      ensures Valid() && Repr == old(Repr) && readSeq == old(readSeq)
      ensures hasMessage == old(hasMessage) && hasChangeCipherSpec == old(hasChangeCipherSpec)
      ensures slots == old(slots)[idx := Some(Slot(f.header.msgSeq, p.Store(f)))]
    {
      hide SlotsOk, SlotOk, Partial.Valid, Partial.Complete, Partial.Store, RingOf, HmFragment.Valid,
           HmFragment.Received, PartialOf, Owned;
      var frag := incoming[idx];
      assert Tied(frag, slots[idx]);
      BitmapGoneIffComplete(frag);
      PartialLength(frag);
      StoreFragment(frag, f);
      slots := slots[idx := Some(Slot(frag.msgSeq, PartialOf(frag)))];
    }

    /** One fragment of a handshake record. */
    method AcceptFragment(maxLen: nat, encrypted: bool, f: Fragment) returns (error: Option<Error>)
      requires Valid() && f.Fits()
      modifies Repr
      ensures Valid() && fresh(Repr - old(Repr)) && readSeq == old(readSeq)
      ensures hasMessage == old(hasMessage) && hasChangeCipherSpec == old(hasChangeCipherSpec)
      ensures (View(), error) == Accept(Config(n, maxLen, encrypted), old(View()), f)
    {
      hide SlotsOk, Partial.Valid, HmFragment.Valid, Holds, Ring.Valid, Owned;
      var h := f.header;
      if h.fragOff > h.msgLen || h.fragOff + h.fragLen > h.msgLen || h.msgLen > maxLen {
        return Some(ExcessiveMessageSize);
      }
      if encrypted && h.msgSeq != readSeq {
        return Some(UnexpectedRecord);
      }
      if h.msgSeq < readSeq || h.msgSeq > readSeq + n {
        return None;
      }
      ghost var before, ring := slots, View();
      var frag;
      frag, error := GetIncomingMessage(h);
      if error.Some? {
        return;
      }
      var idx := h.msgSeq % n;
      assert Tied(frag, slots[idx]);
      ghost var p := slots[idx].value.part;
      BitmapGoneIffComplete(frag);
      AcceptInSlots(Config(n, maxLen, encrypted), before, readSeq, f, p);
      if frag.reassembly != null {
        ghost var stored := Some(Slot(h.msgSeq, p.Store(f)));
        assert slots[idx := stored] == before[idx := stored];
        StoreAt(idx, f, p);
        assert slots == before[idx := stored];
      }
    }

    /** The handshake branch of dtls1_open_handshake: every fragment of a record. */
    method ProcessRecord(maxLen: nat, encrypted: bool, record: seq<byte>) returns (error: Option<Error>)
      requires Valid()
      modifies Repr
      ensures Valid() && fresh(Repr - old(Repr)) && readSeq == old(readSeq)
      ensures hasMessage == old(hasMessage) && hasChangeCipherSpec == old(hasChangeCipherSpec)
      ensures (View(), error) == AcceptRecord(Config(n, maxLen, encrypted), old(View()), record)
    {
      ghost var c := Config(n, maxLen, encrypted);
      var rest := record;
      error := None;
      while |rest| > 0
        invariant Valid() && fresh(Repr - old(Repr)) && readSeq == old(readSeq)
        invariant hasMessage == old(hasMessage) && hasChangeCipherSpec == old(hasChangeCipherSpec)
        invariant error == None
        invariant AcceptRecord(c, View(), rest) == AcceptRecord(c, old(View()), record)
        decreases |rest|
      {
        var parsed := ParseFragment(rest);
        if parsed.None? {
          return Some(BadHandshakeRecord);
        }
        var (f, tail) := parsed.value;
        ParseFragmentExact(rest, f, tail);
        error := AcceptFragment(maxLen, encrypted, f);
        if error.Some? {
          return;
        }
        rest := tail;
      }
    }

    /**
     dtls1_open_handshake on an opened record.  Handshake records go to the ring, an
     unencrypted ChangeCipherSpec is only noted for later, and application data that overtakes
     the Finished is dropped.
     */
    method OpenHandshake(contentType: nat, record: seq<byte>, nullCipher: bool, maxLen: nat, encrypted: bool)
      returns (result: OpenResult)
      requires Valid()
      modifies Repr
      ensures Valid() && fresh(Repr - old(Repr)) && hasMessage == old(hasMessage)
      ensures contentType == 22 ==>
                var (ring, error) := AcceptRecord(Config(n, maxLen, encrypted), old(View()), record);
                View() == ring && result == (if error.None? then Success else Failed)
      ensures contentType != 22 ==> View() == old(View())
      ensures contentType == 20 ==>
                result == (if nullCipher && record == [1] then Success else Failed)
      ensures contentType == 23 ==> result == (if nullCipher then Failed else Discard)
      ensures contentType !in {22, 20, 23} ==> result == Failed
      ensures hasChangeCipherSpec == (old(hasChangeCipherSpec) || (contentType == 20 && result == Success))
    {
      hide SlotsOk, RingOf, Ring.Valid, HmFragment.Valid, Holds, PartialOf, Owned;
      if contentType == APPLICATION_DATA {
        return if nullCipher then Failed else Discard;
      }
      if contentType == CHANGE_CIPHER_SPEC {
        if !nullCipher || |record| != 1 || record[0] != 1 {
          return Failed;
        }
        hasChangeCipherSpec := true;
        return Success;
      }
      if contentType != HANDSHAKE {
        return Failed;
      }
      var error := ProcessRecord(maxLen, encrypted, record);
      return if error.None? then Success else Failed;
    }

    /**
     dtls1_open_change_cipher_spec: a ChangeCipherSpec noted earlier counts at once; otherwise
     one record is opened, and a handshake record that comes first is kept in the ring.
     */
    method OpenChangeCipherSpec(contentType: nat, record: seq<byte>, nullCipher: bool, maxLen: nat, encrypted: bool)
      returns (result: OpenResult)
      requires Valid()
      modifies Repr
      ensures Valid() && fresh(Repr - old(Repr)) && hasMessage == old(hasMessage)
      ensures result == Success <==>
                old(hasChangeCipherSpec) || (contentType == 20 && nullCipher && record == [1])
      ensures !hasChangeCipherSpec
      ensures View() == if contentType == 22 && !old(hasChangeCipherSpec)
                        then AcceptRecord(Config(n, maxLen, encrypted), old(View()), record).0 else old(View())
    {
      hide SlotsOk, RingOf, Ring.Valid, HmFragment.Valid, Holds, PartialOf, Owned;
      if !hasChangeCipherSpec {
        result := OpenHandshake(contentType, record, nullCipher, maxLen, encrypted);
        if result != Success {
          return;
        }
      }
      if hasChangeCipherSpec {
        hasChangeCipherSpec := false;
        return Success;
      }
      return Discard;
    }

    /** dtls1_get_message: the current message, header included, once it is complete. */
    method GetMessage() returns (raw: Option<seq<byte>>)
      requires Valid()
      modifies this`hasMessage
      ensures Valid() && View() == old(View())
      ensures raw == if View().CurrentComplete() then Some(View().slots[readSeq].data) else None
      ensures hasMessage == (old(hasMessage) || raw.Some?)
    {
      hide SlotsOk, Partial.Valid, RingOf, Ring.Valid;
      var frag := incoming[readSeq % n];
      assert Tied(frag, slots[readSeq % n]);
      CurrentSlot(slots, readSeq);
      if frag == null || frag.reassembly != null {
        return None;
      }
      hasMessage := true;
      return Some(frag.data[..]);
    }

    /** dtls1_next_message: frees the current message and moves the window on. */
    method NextMessage()
      requires Valid() && hasMessage && View().CurrentComplete()
      modifies this`readSeq, this`hasMessage, this`slots, incoming
      ensures Valid() && Repr == old(Repr)
      ensures View() == old(View()).Next() && !hasMessage
      ensures hasChangeCipherSpec == old(hasChangeCipherSpec)
    {
      hide SlotsOk, Partial.Valid, HmFragment.Valid, PartialOf, Holds, Ring.Valid, RingOf;
      assert View() == RingOf(slots, readSeq);
      CurrentSlot(slots, readSeq);
      DropCurrent(slots, readSeq);
      var idx := readSeq % n;
      incoming[idx] := null;
      slots, readSeq, hasMessage := slots[idx := None], (readSeq + 1) % 0x10000, false;
      assert Valid();
    }

    /** dtls_has_unprocessed_handshake_data: anything stored besides a message being read. */
    method HasUnprocessedHandshakeData() returns (any: bool)
      requires Valid()
      ensures any <==> hasChangeCipherSpec || exists s :: s in View().slots && !(hasMessage && s == readSeq)
    {
      hide SlotsOk, Partial.Valid, HmFragment.Valid, RingOf, Holds, PartialOf, Ring.Valid, Owned;
      if hasChangeCipherSpec {
        return true;
      }
      assert View() == RingOf(slots, readSeq);
      OtherSlots(slots, readSeq, hasMessage);
      var current := readSeq % n;
      var i := 0;
      while i < n
        invariant 0 <= i <= n
        invariant forall j | 0 <= j < i && !(hasMessage && j == current) :: slots[j].None?
      {
        assert Tied(incoming[i], slots[i]);
        if !(hasMessage && i == current) && incoming[i] != null {
          assert slots[i].Some?;
          assert exists s :: s in RingOf(slots, readSeq).slots && !(hasMessage && s == readSeq);
          return true;
        }
        i := i + 1;
      }
      return false;
    }
  }

  /** dtls1_hm_fragment_new */
  method NewFragment(h: Header) returns (frag: HmFragment)
    requires h.Fits()
    ensures fresh(Owned(frag)) && frag.Valid() && frag.msgSeq == h.msgSeq
    ensures PartialOf(frag) == Reassembly.Empty(h)
  {
    var whole := Header(h.msgType, h.msgLen, h.msgSeq, 0, h.msgLen);
    frag := new HmFragment(h.msgType, h.msgSeq, h.msgLen, whole.Bytes());
  }
}
