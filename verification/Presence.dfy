/**
 How far the presence check of pb_decode_noinit reaches: it covers the first 64 required
 fields (pb_decode.c), so that a message can be decoded without the others.
 */
module Presence {
  import opened Bits
  import opened Wrappers
  import opened Varint
  import opened Schema
  import opened Encoding
  import opened Decoding
  import opened RoundTrip

  function RequiredCount(fields: seq<Field>): nat {
    RequiredIndex(fields, |fields|)
  }

  /** Field i was on the wire. */
  predicate OnWire(fields: seq<Field>, s: seq<byte>, before: seq<Slot>, i: nat)
    requires |before| == |fields|
  {
    var p := DecodeLoop(fields, s, before, {});
    p.Some? && i in p.value.seen
  }

  /** Whoever has decoded a message has had every required field. */
  ghost predicate ChecksAll(fields: seq<Field>) {
    forall s: seq<byte>, before: seq<Slot> | |before| == |fields| && DecodeMessage(fields, s, before).Some? ::
      forall i | 0 <= i < |fields| && fields[i].rule.Required? :: OnWire(fields, s, before, i)
  }

  lemma {:induction false} IndexGrows(fields: seq<Field>, i: nat, j: nat)
    requires i <= j <= |fields|
    ensures RequiredIndex(fields, i) <= RequiredIndex(fields, j)
    ensures i < j && fields[i].rule.Required? ==> RequiredIndex(fields, i) < RequiredIndex(fields, j)
    decreases j
  {
    if i < j {
      IndexGrows(fields, i, j - 1);
    }
  }

  /** The field in front of which there are just n required ones. */
  lemma {:induction false} RequiredField(fields: seq<Field>, n: nat, upTo: nat) returns (j: nat)
    requires upTo <= |fields| && n < RequiredIndex(fields, upTo)
    ensures j < upTo && fields[j].rule.Required? && RequiredIndex(fields, j) == n
    decreases upTo
  {
    if fields[upTo - 1].rule.Required? && RequiredIndex(fields, upTo - 1) == n {
      j := upTo - 1;
    } else {
      j := RequiredField(fields, n, upTo - 1);
    }
  }

  // A message that ends early

  ghost function RequiredWithin(fields: seq<Field>, i: nat, j: nat): set<nat> {
    set k | i <= k < j && k < |fields| && fields[k].rule.Required?
  }

  /** The bytes of the first fields of a message, decoded: the message so far, and the required fields among them. */
  lemma {:induction false} FirstFields(fields: seq<Field>, slots: seq<Slot>, i: nat, j: nat, bytes: seq<byte>, seen: set<nat>)
    returns (front: seq<byte>)
    requires DescriptorOk(fields) && SlotsOk(fields, slots) && i <= j <= |fields|
    requires EncodeFields(fields, slots, i) == Some(bytes) && |bytes| < U32
    ensures front <= bytes
    ensures DecodeLoop(fields, front, PartlyRestored(fields, slots, i), seen)
         == Some(Progress(PartlyRestored(fields, slots, j), seen + RequiredWithin(fields, i, j), []))
    decreases j - i
  {
    hide DescriptorOk, SlotOk, EncodeField, EncodeFields, PartlyRestored, DecodeLoop, Home;
    if i == j {
      front := [];
      assert seen + RequiredWithin(fields, i, j) == seen;
      LoopAtEnd(fields, PartlyRestored(fields, slots, i), seen);
    } else {
      EncodedStep(fields, slots, i, bytes);
      var first := EncodeField(fields[i], slots[Home(fields, i)]).value;
      var seen' := if fields[i].rule.Required? then seen + {i} else seen;
      var more := FirstFields(fields, slots, i + 1, j, EncodeFields(fields, slots, i + 1).value, seen');
      front := first + more;
      FieldRoundTrip(fields, slots, i, first, more, seen);
      assert seen' + RequiredWithin(fields, i + 1, j) == seen + RequiredWithin(fields, i, j);
    }
  }

  /** With a required field behind the 64th, the bytes before it are a message without it. */
  lemma SomeFieldIsMissed(fields: seq<Field>, slots: seq<Slot>, bytes: seq<byte>) returns (front: seq<byte>, j: nat)
    requires DescriptorOk(fields) && SlotsOk(fields, slots)
    requires EncodeFields(fields, slots, 0) == Some(bytes) && |bytes| < U32
    requires RequiredCount(fields) > 64
    ensures front <= bytes && j < |fields| && fields[j].rule.Required?
    ensures DecodeMessage(fields, front, Defaults(fields)).Some? && !OnWire(fields, front, Defaults(fields), j)
  {
    j := RequiredField(fields, MAX_REQUIRED_FIELDS, |fields|);
    front := FirstFields(fields, slots, 0, j, bytes, {});
    NothingRestored(fields, slots);
    hide DecodeLoop, DescriptorOk, SlotsOk, EncodeFields;
    forall i | 0 <= i < |fields| && fields[i].rule.Required? && RequiredIndex(fields, i) < MAX_REQUIRED_FIELDS
      ensures i in {} + RequiredWithin(fields, 0, j)
    {
      if j <= i {
        IndexGrows(fields, j, i);
      }
    }
  }

  /** Up to 64 required fields are all checked. */
  lemma FewFieldsAreChecked(fields: seq<Field>)
    requires RequiredCount(fields) <= 64
    ensures ChecksAll(fields)
  {
    hide DecodeLoop;
    forall s: seq<byte>, before: seq<Slot> | |before| == |fields| && DecodeMessage(fields, s, before).Some?
      ensures forall i | 0 <= i < |fields| && fields[i].rule.Required? :: OnWire(fields, s, before, i)
    {
      forall i | 0 <= i < |fields| && fields[i].rule.Required?
        ensures OnWire(fields, s, before, i)
      {
        IndexGrows(fields, i, |fields|);
      }
    }
  }

  /**
   Main result: a successful decode means that every required field was on the wire if and
   only if the message type has at most 64 of them.
   */
  lemma PresenceIsCheckedIff(fields: seq<Field>, slots: seq<Slot>, bytes: seq<byte>)
    requires DescriptorOk(fields) && SlotsOk(fields, slots)
    requires EncodeFields(fields, slots, 0) == Some(bytes) && |bytes| < U32
    ensures ChecksAll(fields) <==> RequiredCount(fields) <= 64
  {
    if RequiredCount(fields) <= 64 {
      FewFieldsAreChecked(fields);
    } else {
      var front, j := SomeFieldIsMissed(fields, slots, bytes);
      assert !OnWire(fields, front, Defaults(fields), j);
    }
  }

  // A message type with 65 required fields

  const MANY: nat := 65

  function ManyFields(): (fields: seq<Field>)
    ensures |fields| == MANY
  {
    seq(MANY, i requires 0 <= i < MANY => Field(i + 1, UVarintKind, Required, 0, 0, 4, 0, None))
  }

  function Zeros(): (slots: seq<Slot>)
    ensures |slots| == MANY
  {
    seq(MANY, _ => Single(Num(0)))
  }

  lemma {:induction false} ManyAreRequired(i: nat)
    requires i <= MANY
    ensures RequiredIndex(ManyFields(), i) == i
  {
    if i > 0 {
      ManyAreRequired(i - 1);
    }
  }

  lemma ZeroIsShort(i: nat)
    requires i < MANY
    ensures var field := EncodeField(ManyFields()[i], Single(Num(0)));
            field.Some? && |field.value| <= 3
  {
    var f := ManyFields()[i];
    assert Pow2(14) == 16384 && Pow2(7) == 128;
    EncodeLength(f.tag * 8 + WT_VARINT, 2);
    EncodeLength(0, 1);
    assert EncodeValue(f, Num(0)).Some? && |EncodeValue(f, Num(0)).value| <= 1;
    assert |Key(f.tag, WireType(f.kind))| <= 2;
  }

  lemma {:induction false} ZerosAreShort(i: nat)
    requires i <= MANY
    ensures EncodeFields(ManyFields(), Zeros(), i).Some?
    ensures |EncodeFields(ManyFields(), Zeros(), i).value| <= 3 * (MANY - i)
    decreases MANY - i
  {
    if i < MANY {
      ZerosAreShort(i + 1);
      ZeroIsShort(i);
      hide EncodeField;
      assert Zeros()[Home(ManyFields(), i)] == Single(Num(0));
    }
  }

  lemma ZerosAreValid()
    ensures DescriptorOk(ManyFields()) && SlotsOk(ManyFields(), Zeros())
  {
    forall i | 0 <= i < MANY
      ensures SlotOk(ManyFields()[i], Zeros()[Home(ManyFields(), i)])
    {
    }
  }

  /** Of 65 required fields, the last can be missing from a message that is accepted. */
  lemma SixtyFifthIsMissed()
    ensures DescriptorOk(ManyFields()) && !ChecksAll(ManyFields())
  {
    hide DescriptorOk, SlotsOk, EncodeFields, ChecksAll, ManyFields;
    ZerosAreValid();
    ZerosAreShort(0);
    ManyAreRequired(MANY);
    PresenceIsCheckedIff(ManyFields(), Zeros(), EncodeFields(ManyFields(), Zeros(), 0).value);
  }
}
