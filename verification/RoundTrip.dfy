/**
 Decoding what was encoded gives the message back, with absent fields at their defaults,
 for every descriptor of required, optional, repeated, union and nested fields.
 */
module RoundTrip {
  import opened Bits
  import opened Wrappers
  import opened Varint
  import opened Schema
  import opened Encoding
  import opened Decoding

  /** A value its field can hold: in range, terminated, of the right size. */
  ghost predicate ValueOk(f: Field, v: Value)
    decreases f, 0
  {
    match f.kind
    case VarintKind => v.Num? && FitsSigned(v.n, f.dataSize)
    case UVarintKind => v.Num? && FitsUnsigned(v.n, f.dataSize)
    case SVarintKind => v.Num? && FitsSigned(v.n, f.dataSize)
    case Fixed32Kind => v.Num? && FitsUnsigned(v.n, 4)
    case Fixed64Kind => v.Num? && FitsUnsigned(v.n, 8)
    case BytesKind => v.Blob? && |v.bytes| + 1 <= f.dataSize
    case StringKind => v.Blob? && |v.bytes| + 1 <= f.dataSize && forall i | 0 <= i < |v.bytes| :: v.bytes[i] != 0
    case SubmessageKind(fields) => v.Msg? && SlotsOk(fields, v.slots)
    case FixedBytesKind => v.Blob? && |v.bytes| == f.dataSize
  }

  /** A union holds a value of the member its tag selects; what an absent field holds does not matter. */
  ghost predicate SlotOk(f: Field, slot: Slot)
    decreases f, 1
  {
    match f.rule
    case Required => slot.Single? && ValueOk(f, slot.v)
    case Optional => slot.Maybe? && (slot.has ==> ValueOk(f, slot.v))
    case Repeated => slot.Many? && |slot.vs| <= f.arraySize && forall k | 0 <= k < |slot.vs| :: ValueOk(f, slot.vs[k])
    case Oneof => slot.Choice? && (slot.which == f.tag ==> ValueOk(f, slot.v))
  }

  ghost predicate SlotsOk(fields: seq<Field>, slots: seq<Slot>)
    decreases fields
  {
    |slots| == |fields| && forall i | 0 <= i < |fields| :: SlotOk(fields[i], slots[Home(fields, i)])
  }

  // The message to expect

  function RestoredValue(f: Field, v: Value): Value
    decreases f, 0
  {
    if f.kind.SubmessageKind? && v.Msg? && |v.slots| == |f.kind.fields|
    then Msg(Restored(f.kind.fields, v.slots)) else v
  }

  /** The union member at home j, among the first i fields, that is present. */
  function Active(fields: seq<Field>, slots: seq<Slot>, j: nat, i: nat): (k: Option<nat>)
    requires i <= |fields| == |slots| && j < |fields|
    ensures k.Some? ==> k.value < i && Home(fields, k.value) == j
    decreases i
  {
    if i == 0 then None
    else if fields[i - 1].rule.Oneof? && Home(fields, i - 1) == j
            && slots[j].Choice? && slots[j].which == fields[i - 1].tag then Some(i - 1)
    else Active(fields, slots, j, i - 1)
  }

  /** Slot j after the first i fields have been encoded and decoded. */
  function PartialSlot(fields: seq<Field>, slots: seq<Slot>, i: nat, j: nat): Slot
    requires i <= |fields| == |slots| && j < |fields|
    decreases fields, 0
  {
    var f := fields[j];
    if f.rule.Oneof? then
      if Home(fields, j) != j then Shared
      else match Active(fields, slots, j, i)
        case None => Choice(0, Num(0))
        case Some(k) =>
          Choice(fields[k].tag, RestoredValue(fields[k], if slots[j].Choice? then slots[j].v else Num(0)))
    else if i <= j then DefaultSlot(f, false)
    else match slots[j]
      case Single(v) => Single(RestoredValue(f, v))
      case Maybe(has, v) => if has then Maybe(true, RestoredValue(f, v)) else Maybe(false, DefaultValue(f))
      case Many(vs) => Many(seq(|vs|, k requires 0 <= k < |vs| => RestoredValue(f, vs[k])))
      case _ => slots[j]
  }

  function PartlyRestored(fields: seq<Field>, slots: seq<Slot>, i: nat): (r: seq<Slot>)
    requires i <= |fields| == |slots|
    ensures |r| == |fields|
    decreases fields, 1
  {
    seq(|fields|, j requires 0 <= j < |fields| => PartialSlot(fields, slots, i, j))
  }

  /**
   The message with every present value kept, absent optional fields and unions at their
   defaults, and submessages restored likewise.
   */
  function Restored(fields: seq<Field>, slots: seq<Slot>): (r: seq<Slot>)
    requires |slots| == |fields|
    ensures |r| == |fields|
    decreases fields, 2
  {
    PartlyRestored(fields, slots, |fields|)
  }

  // Single values

  lemma {:induction false} StringLengthOfString(s: seq<byte>, n: nat)
    requires |s| < n && forall i | 0 <= i < |s| :: s[i] != 0
    ensures StringLength(s, n) == |s|
    decreases |s|
  {
    if s != [] {
      StringLengthOfString(s[1..], n - 1);
    }
  }

  lemma TakeDelimitedRoundTrip(payload: seq<byte>, tail: seq<byte>)
    requires |payload| < U32
    ensures TakeDelimited(Delimited(payload) + tail) == Some((payload, tail))
  {
    Decode32Encode(|payload|, payload + tail);
    assert Delimited(payload) + tail == Encode(|payload|) + (payload + tail);
    assert (payload + tail)[..|payload|] == payload && (payload + tail)[|payload|..] == tail;
  }

  lemma TakeRoundTrip(payload: seq<byte>, tail: seq<byte>)
    ensures Take(payload + tail, |payload|) == Some((payload, tail))
  {
    assert (payload + tail)[..|payload|] == payload && (payload + tail)[|payload|..] == tail;
  }

  lemma NarrowSignedRoundTrip(n: int, size: nat)
    requires FitsSigned(n, size)
    ensures AsUnsigned(n) < U64 && NarrowSigned(AsUnsigned(n), size) == Some(Num(n))
  {
  }

  /** Numbers keep their value through the codec of their field. */
  lemma NumberRoundTrip(f: Field, v: Value, before: Value, tail: seq<byte>)
    requires ValueOk(f, v) && f.kind.Packable()
    ensures EncodeValue(f, v).Some?
    ensures DecodeValue(f, EncodeValue(f, v).value + tail, before) == Some((v, tail))
  {
    hide Encode, Decode, Fixed, FromFixed;
    match f.kind {
      case VarintKind =>
        NarrowSignedRoundTrip(v.n, f.dataSize);
        DecodeEncode(AsUnsigned(v.n), tail);
      case UVarintKind =>
        DecodeEncode(v.n, tail);
      case SVarintKind =>
        ZigzagRoundTrip(v.n);
        DecodeEncode(Zigzag(v.n), tail);
      case Fixed32Kind =>
        assert Pow256(4) == U32;
        FixedRoundTrip(v.n, 4);
        TakeRoundTrip(Fixed(v.n, 4), tail);
      case Fixed64Kind =>
        Pow256Is64();
        FixedRoundTrip(v.n, 8);
        TakeRoundTrip(Fixed(v.n, 8), tail);
      case _ =>
    }
  }

  lemma Pow256Is64()
    ensures Pow256(8) == U64
  {
    assert Pow256(4) == U32;
  }

  /** Bytes and strings come back byte for byte. */
  lemma BlobRoundTrip(f: Field, v: Value, before: Value, tail: seq<byte>)
    requires ValueOk(f, v) && FieldOk(f) && !f.kind.Packable() && !f.kind.SubmessageKind?
    ensures EncodeValue(f, v) == Some(Delimited(v.bytes))
    ensures DecodeValue(f, Delimited(v.bytes) + tail, before) == Some((v, tail))
  {
    hide Delimited, TakeDelimited, StringLength;
    TakeDelimitedRoundTrip(v.bytes, tail);
    if f.kind.StringKind? {
      StringLengthOfString(v.bytes, f.dataSize);
      assert v.bytes[..|v.bytes|] == v.bytes;
    }
  }

  lemma DecodeKey(tag: nat, wireType: nat, tail: seq<byte>)
    requires 0 < tag <= SIZE_MAX && wireType < 8
    ensures DecodeTag(Key(tag, wireType) + tail) == Tag(tag, wireType, tail)
  {
    hide Decode32, Encode;
    Decode32Encode(tag * 8 + wireType, tail);
  }

  lemma FindOwnTag(fields: seq<Field>, i: nat)
    requires DescriptorOk(fields) && i < |fields|
    ensures Find(fields, fields[i].tag) == Some(i)
  {
    assert forall j | 0 <= j < |fields| && fields[j].tag == fields[i].tag :: j == i;
  }

  // Arrays

  lemma PackedStep(f: Field, s: seq<byte>, v: Value, rest: seq<byte>, vs: seq<Value>)
    requires s != [] && |vs| < f.arraySize && DecodeValue(f, s, Num(0)) == Some((v, rest))
    ensures DecodePacked(f, s, vs) == DecodePacked(f, rest, vs + [v])
  {
    hide DecodeValue;
  }

  lemma {:induction false} PackedRoundTrip(f: Field, vs: seq<Value>, done: seq<Value>)
    requires f.kind.Packable() && |done| + |vs| <= f.arraySize
    requires forall k | 0 <= k < |vs| :: ValueOk(f, vs[k])
    ensures EncodePacked(f, vs).Some?
    ensures DecodePacked(f, EncodePacked(f, vs).value, done) == Some((done + vs, []))
    decreases |vs|
  {
    if vs == [] {
      assert done + vs == done;
    } else {
      hide EncodeValue, DecodeValue, ValueOk, DecodePacked;
      PackedRoundTrip(f, vs[1..], done + [vs[0]]);
      var tail := EncodePacked(f, vs[1..]).value;
      NumberRoundTrip(f, vs[0], Num(0), tail);
      var s := EncodeValue(f, vs[0]).value + tail;
      assert EncodePacked(f, vs) == Some(s);
      assert s != [] by {
        assert DecodeValue(f, s, Num(0)).Some?;
      }
      assert done + [vs[0]] + vs[1..] == done + vs;
      PackedStep(f, s, vs[0], tail, done);
    }
  }

  // Messages

  /** One value under its key, decoded into the field it belongs to. */
  lemma KeyedValue(fields: seq<Field>, i: nat, v: Value, bytes: seq<byte>, tail: seq<byte>,
                   now: seq<Slot>, seen: set<nat>, result: Value)
    requires DescriptorOk(fields) && i < |fields| == |now|
    requires EncodeValue(fields[i], v) == Some(bytes)
    requires DecodeValue(fields[i], bytes + tail, OldValue(now[Home(fields, i)])) == Some((result, tail))
    requires fields[i].rule.Repeated? ==>
               && !fields[i].kind.Packable() && now[i].Many? && |now[i].vs| < fields[i].arraySize
    ensures var f := fields[i];
            DecodeLoop(fields, Key(f.tag, WireType(f.kind)) + bytes + tail, now, seen)
            == DecodeLoop(fields, tail, now[Home(fields, i) := Store(f, now[Home(fields, i)], result)],
                          if f.rule.Required? then seen + {i} else seen)
  {
    hide DecodeValue, EncodeValue, Key, Home, Store, OldValue, DecodeTag, Find;
    var f := fields[i];
    var s := Key(f.tag, WireType(f.kind)) + (bytes + tail);
    assert Key(f.tag, WireType(f.kind)) + bytes + tail == s;
    assert FieldOk(f);
    DecodeKey(f.tag, WireType(f.kind), bytes + tail);
    FindOwnTag(fields, i);
    HomeOfOther(fields, i);
    assert s != [] by {
      assert DecodeTag(s).Tag?;
    }
    var slots' := now[Home(fields, i) := Store(f, now[Home(fields, i)], result)];
    assert DecodeField(fields, i, WireType(f.kind), bytes + tail, now) == Some((slots', tail));
    assert DecodeOne(fields, f.tag, WireType(f.kind), bytes + tail, now, seen)
        == Some(Progress(slots', if f.rule.Required? then seen + {i} else seen, tail));
  }

  lemma HomeOfOther(fields: seq<Field>, i: nat)
    requires i < |fields|
    ensures !fields[i].rule.Oneof? ==> Home(fields, i) == i
  {
  }

  /** Fields that live elsewhere are not touched by the i-th one. */
  lemma OthersUnchanged(fields: seq<Field>, slots: seq<Slot>, i: nat, j: nat)
    requires i < |fields| == |slots| && j < |fields| && j != Home(fields, i)
    ensures PartialSlot(fields, slots, i + 1, j) == PartialSlot(fields, slots, i, j)
  {
    HomeOfOther(fields, i);
  }

  lemma StepSlots(fields: seq<Field>, slots: seq<Slot>, i: nat)
    requires i < |fields| == |slots|
    ensures PartlyRestored(fields, slots, i + 1)
         == PartlyRestored(fields, slots, i)[Home(fields, i) := PartialSlot(fields, slots, i + 1, Home(fields, i))]
  {
    hide PartialSlot;
    forall j | 0 <= j < |fields| && j != Home(fields, i)
      ensures PartialSlot(fields, slots, i + 1, j) == PartialSlot(fields, slots, i, j)
    {
      OthersUnchanged(fields, slots, i, j);
    }
  }

  /** A field that is not encoded is at its default before and after. */
  lemma AbsentField(fields: seq<Field>, slots: seq<Slot>, i: nat)
    requires i < |fields| == |slots|
    requires SlotOk(fields[i], slots[Home(fields, i)])
    requires match fields[i].rule
             case Required => false
             case Optional => !slots[i].has
             case Repeated => slots[i].vs == []
             case Oneof => slots[Home(fields, i)].which != fields[i].tag
    ensures PartlyRestored(fields, slots, i + 1) == PartlyRestored(fields, slots, i)
  {
    HomeIsHome(fields, i);
    var h := Home(fields, i);
    assert PartialSlot(fields, slots, i + 1, h) == PartialSlot(fields, slots, i, h);
    StepSlots(fields, slots, i);
    assert PartlyRestored(fields, slots, i)[h] == PartialSlot(fields, slots, i, h);
  }

  /** What the destination holds when a field is first decoded lets a submessage start from its defaults. */
  lemma FreshTarget(fields: seq<Field>, slots: seq<Slot>, i: nat)
    requires i < |fields| == |slots|
    ensures var f, slot := fields[i], PartlyRestored(fields, slots, i)[Home(fields, i)];
            && (f.kind.SubmessageKind? ==> Target(f, OldValue(slot)) == Defaults(f.kind.fields))
            && (f.rule.Repeated? ==> slot == Many([]))
  {
    HomeOfOther(fields, i);
    var f, h := fields[i], Home(fields, i);
    assert PartlyRestored(fields, slots, i)[h] == PartialSlot(fields, slots, i, h);
    if !f.rule.Oneof? {
      assert PartialSlot(fields, slots, i, i) == DefaultSlot(f, false);
      if f.kind.SubmessageKind? && !f.rule.Repeated? {
        assert OldValue(DefaultSlot(f, false)) == DefaultValue(f) == Msg(Defaults(f.kind.fields));
      }
    }
  }

  lemma PresentField(fields: seq<Field>, slots: seq<Slot>, i: nat)
    requires i < |fields| == |slots|
    requires SlotOk(fields[i], slots[Home(fields, i)])
    requires match fields[i].rule
             case Required => true
             case Optional => slots[i].has
             case Repeated => false
             case Oneof => slots[Home(fields, i)].which == fields[i].tag
    ensures var f, h := fields[i], Home(fields, i);
            && (slots[h].Single? || slots[h].Maybe? || slots[h].Choice?)
            && PartlyRestored(fields, slots, i + 1)
               == PartlyRestored(fields, slots, i)[h := Store(f, PartlyRestored(fields, slots, i)[h], RestoredValue(f, slots[h].v))]
  {
    HomeIsHome(fields, i);
    StepSlots(fields, slots, i);
  }

  lemma PresentArray(fields: seq<Field>, slots: seq<Slot>, i: nat)
    requires i < |fields| == |slots| && fields[i].rule.Repeated? && slots[i].Many?
    ensures PartlyRestored(fields, slots, i + 1)
         == PartlyRestored(fields, slots, i)[i := Many(RestoredValues(fields[i], slots[i].vs))]
  {
    StepSlots(fields, slots, i);
  }

  function RestoredValues(f: Field, vs: seq<Value>): seq<Value> {
    seq(|vs|, k requires 0 <= k < |vs| => RestoredValue(f, vs[k]))
  }

  // The induction over nesting

  lemma {:induction false} ValueRoundTrip(f: Field, v: Value, before: Value, bytes: seq<byte>, tail: seq<byte>)
    requires FieldOk(f) && ValueOk(f, v) && EncodeValue(f, v) == Some(bytes) && |bytes| < U32
    requires f.kind.SubmessageKind? ==> Target(f, before) == Defaults(f.kind.fields)
    ensures DecodeValue(f, bytes + tail, before) == Some((RestoredValue(f, v), tail))
    decreases f
  {
    if f.kind.Packable() {
      NumberRoundTrip(f, v, before, tail);
    } else if f.kind.SubmessageKind? {
      var payload := EncodeFields(f.kind.fields, v.slots, 0).value;
      TakeDelimitedRoundTrip(payload, tail);
      MessageRoundTrip(f.kind.fields, v.slots, payload);
    } else {
      BlobRoundTrip(f, v, before, tail);
    }
  }

  lemma {:induction false} ItemsRoundTrip(fields: seq<Field>, i: nat, vs: seq<Value>, done: seq<Value>, bytes: seq<byte>,
                                          tail: seq<byte>, now: seq<Slot>, seen: set<nat>)
    requires DescriptorOk(fields) && i < |fields| == |now|
    requires var f := fields[i];
             && f.rule.Repeated? && !f.kind.Packable()
             && (forall k | 0 <= k < |vs| :: ValueOk(f, vs[k]))
             && |done| + |vs| <= f.arraySize && now[i] == Many(done)
             && EncodeItems(f, vs) == Some(bytes) && |bytes| < U32
    ensures DecodeLoop(fields, bytes + tail, now, seen)
         == DecodeLoop(fields, tail, now[i := Many(done + RestoredValues(fields[i], vs))], seen)
    decreases fields, 0, |vs|
  {
    hide DecodeLoop, DecodeValue, EncodeValue, ValueOk, DescriptorOk;
    var f := fields[i];
    if vs == [] {
      assert bytes + tail == tail;
      assert done + RestoredValues(f, vs) == done;
      assert now[i := Many(done)] == now;
    } else {
      var first, rest := EncodeValue(f, vs[0]).value, EncodeItems(f, vs[1..]).value;
      var key := Key(f.tag, WireType(f.kind));
      assert Tagged(f, vs[0]) == Some(key + first);
      assert bytes == key + first + rest;
      assert bytes + tail == key + first + (rest + tail);
      FieldOfDescriptor(fields, i);
      HomeOfOther(fields, i);
      ValueRoundTrip(f, vs[0], OldValue(now[i]), first, rest + tail);
      var result := RestoredValue(f, vs[0]);
      KeyedValue(fields, i, vs[0], first, rest + tail, now, seen, result);
      var now' := now[i := Many(done + [result])];
      ItemsRoundTrip(fields, i, vs[1..], done + [result], rest, tail, now', seen);
      assert done + [result] + RestoredValues(f, vs[1..]) == done + RestoredValues(f, vs);
      assert now'[i := Many(done + RestoredValues(f, vs))] == now[i := Many(done + RestoredValues(f, vs))];
    }
  }

  lemma {:induction false} PackedFieldRoundTrip(fields: seq<Field>, i: nat, vs: seq<Value>, bytes: seq<byte>,
                                                tail: seq<byte>, now: seq<Slot>, seen: set<nat>)
    requires DescriptorOk(fields) && i < |fields| == |now|
    requires var f := fields[i];
             && f.rule.Repeated? && f.kind.Packable() && vs != []
             && (forall k | 0 <= k < |vs| :: ValueOk(f, vs[k]))
             && |vs| <= f.arraySize && now[i] == Many([])
             && EncodeArray(f, vs) == Some(bytes) && |bytes| < U32
    ensures DecodeLoop(fields, bytes + tail, now, seen)
         == DecodeLoop(fields, tail, now[i := Many(RestoredValues(fields[i], vs))], seen)
  {
    hide DecodePacked, EncodePacked, ValueOk, DescriptorOk, Delimited, TakeDelimited, Key, DecodeTag, Find;
    var f := fields[i];
    PackedRoundTrip(f, vs, []);
    var payload := EncodePacked(f, vs).value;
    var s := Key(f.tag, WT_STRING) + (Delimited(payload) + tail);
    assert bytes + tail == s;
    FieldOfDescriptor(fields, i);
    DecodeKey(f.tag, WT_STRING, Delimited(payload) + tail);
    FindOwnTag(fields, i);
    HomeOfOther(fields, i);
    DelimitedLength(payload);
    TakeDelimitedRoundTrip(payload, tail);
    assert s != [] by {
      assert DecodeTag(s).Tag?;
    }
    assert [] + vs == vs == RestoredValues(f, vs);
    assert DecodeField(fields, i, WT_STRING, Delimited(payload) + tail, now) == Some((now[i := Many(vs)], tail));
    assert DecodeOne(fields, f.tag, WT_STRING, Delimited(payload) + tail, now, seen)
        == Some(Progress(now[i := Many(vs)], seen, tail));
  }

  lemma DelimitedLength(payload: seq<byte>)
    ensures |payload| < |Delimited(payload)|
  {
  }

  /** One field, present or not, takes the decoder from one partly restored message to the next. */
  lemma {:induction false} FieldRoundTrip(fields: seq<Field>, slots: seq<Slot>, i: nat, bytes: seq<byte>,
                                          tail: seq<byte>, seen: set<nat>)
    requires DescriptorOk(fields) && i < |fields| == |slots|
    requires SlotOk(fields[i], slots[Home(fields, i)])
    requires EncodeField(fields[i], slots[Home(fields, i)]) == Some(bytes) && |bytes| < U32
    ensures DecodeLoop(fields, bytes + tail, PartlyRestored(fields, slots, i), seen)
         == DecodeLoop(fields, tail, PartlyRestored(fields, slots, i + 1),
                       if fields[i].rule.Required? then seen + {i} else seen)
    decreases fields, 1
  {
    hide DecodeLoop, DescriptorOk, ValueOk, EncodeValue, DecodeValue, PartlyRestored;
    var f, slot, now := fields[i], slots[Home(fields, i)], PartlyRestored(fields, slots, i);
    HomeOfOther(fields, i);
    if bytes == [] {
      assert bytes + tail == tail;
      EmptyMeansAbsent(f, slot);
      AbsentField(fields, slots, i);
    } else {
      FreshTarget(fields, slots, i);
      if f.rule.Repeated? {
        PresentArray(fields, slots, i);
        if f.kind.Packable() {
          PackedFieldRoundTrip(fields, i, slot.vs, bytes, tail, now, seen);
        } else {
          ItemsRoundTrip(fields, i, slot.vs, [], bytes, tail, now, seen);
          assert [] + RestoredValues(f, slot.vs) == RestoredValues(f, slot.vs);
        }
      } else {
        var value := EncodeValue(f, slot.v).value;
        FieldOfDescriptor(fields, i);
        ValueRoundTrip(f, slot.v, OldValue(now[Home(fields, i)]), value, tail);
        KeyedValue(fields, i, slot.v, value, tail, now, seen, RestoredValue(f, slot.v));
        PresentField(fields, slots, i);
      }
    }
  }

  /** Every encoded value has a key, so nothing is written only for what is absent. */
  lemma EmptyMeansAbsent(f: Field, slot: Slot)
    requires SlotOk(f, slot) && EncodeField(f, slot) == Some([])
    ensures match f.rule
            case Required => false
            case Optional => !slot.has
            case Repeated => slot.vs == []
            case Oneof => slot.which != f.tag
  {
    if f.rule.Repeated? && slot.vs != [] && !f.kind.Packable() {
      assert EncodeField(f, slot) == EncodeArray(f, slot.vs) == EncodeItems(f, slot.vs);
      ItemsAreNotEmpty(f, slot.vs);
    }
  }

  lemma ItemsAreNotEmpty(f: Field, vs: seq<Value>)
    requires vs != []
    ensures EncodeItems(f, vs) != Some([])
  {
    hide EncodeValue;
    var first := Tagged(f, vs[0]);
    assert first.Some? ==> |first.value| >= |Key(f.tag, WireType(f.kind))|;
  }

  ghost function RequiredFrom(fields: seq<Field>, i: nat): set<nat> {
    set k | i <= k < |fields| && fields[k].rule.Required?
  }

  lemma EncodedStep(fields: seq<Field>, slots: seq<Slot>, i: nat, bytes: seq<byte>)
    requires i <= |fields| == |slots| && EncodeFields(fields, slots, i) == Some(bytes)
    ensures if i == |fields| then bytes == []
            else
              var first, rest := EncodeField(fields[i], slots[Home(fields, i)]), EncodeFields(fields, slots, i + 1);
              first.Some? && rest.Some? && bytes == first.value + rest.value
  {
    hide EncodeField;
  }

  lemma LoopAtEnd(fields: seq<Field>, slots: seq<Slot>, seen: set<nat>)
    requires |slots| == |fields|
    ensures DecodeLoop(fields, [], slots, seen) == Some(Progress(slots, seen, []))
  {
  }

  lemma LoopStep(fields: seq<Field>, s: seq<byte>, tag: nat, wireType: nat, rest: seq<byte>, slots: seq<Slot>, seen: set<nat>)
    requires |slots| == |fields| && s != [] && DecodeTag(s) == Tag(tag, wireType, rest)
    ensures var p := DecodeOne(fields, tag, wireType, rest, slots, seen);
            DecodeLoop(fields, s, slots, seen)
            == if p.None? then None else DecodeLoop(fields, p.value.rest, p.value.slots, p.value.seen)
  {
    hide DecodeOne, DecodeTag;
  }

  lemma {:induction false} FieldsRoundTrip(fields: seq<Field>, slots: seq<Slot>, i: nat, bytes: seq<byte>, seen: set<nat>)
    requires DescriptorOk(fields) && SlotsOk(fields, slots) && i <= |fields|
    requires EncodeFields(fields, slots, i) == Some(bytes) && |bytes| < U32
    ensures DecodeLoop(fields, bytes, PartlyRestored(fields, slots, i), seen)
         == Some(Progress(Restored(fields, slots), seen + RequiredFrom(fields, i), []))
    decreases fields, 2, |fields| - i
  {
    hide DescriptorOk, SlotOk, EncodeField, EncodeFields, PartlyRestored, DecodeLoop, Home;
    EncodedStep(fields, slots, i, bytes);
    if i == |fields| {
      assert seen + RequiredFrom(fields, i) == seen;
      LoopAtEnd(fields, PartlyRestored(fields, slots, i), seen);
      assert PartlyRestored(fields, slots, i) == Restored(fields, slots);
    } else {
      var first := EncodeField(fields[i], slots[Home(fields, i)]).value;
      var rest := EncodeFields(fields, slots, i + 1).value;
      FieldRoundTrip(fields, slots, i, first, rest, seen);
      var seen' := if fields[i].rule.Required? then seen + {i} else seen;
      FieldsRoundTrip(fields, slots, i + 1, rest, seen');
      assert seen' + RequiredFrom(fields, i + 1) == seen + RequiredFrom(fields, i);
    }
  }

  /**
   Main result: decoding an encoded message into a fresh struct restores the message.  The
   bytes must be short enough for the 32-bit lengths the decoder reads.
   */
  lemma {:induction false} MessageRoundTrip(fields: seq<Field>, slots: seq<Slot>, bytes: seq<byte>)
    requires DescriptorOk(fields) && SlotsOk(fields, slots)
    requires EncodeFields(fields, slots, 0) == Some(bytes) && |bytes| < U32
    ensures DecodeMessage(fields, bytes, Defaults(fields)) == Some(Restored(fields, slots))
    decreases fields, 3
  {
    hide DescriptorOk, DecodeLoop;
    NothingRestored(fields, slots);
    FieldsRoundTrip(fields, slots, 0, bytes, {});
    assert RequiredSeen(fields, {} + RequiredFrom(fields, 0));
  }

  lemma NothingRestored(fields: seq<Field>, slots: seq<Slot>)
    requires |slots| == |fields|
    ensures PartlyRestored(fields, slots, 0) == Defaults(fields)
  {
    forall j | 0 <= j < |fields|
      ensures PartialSlot(fields, slots, 0, j) == Defaults(fields)[j]
    {
      HomeOfOther(fields, j);
    }
  }

  // What is restored is all there was to encode

  lemma {:induction false} RestoredItemsEncodeAlike(f: Field, vs: seq<Value>)
    requires forall k | 0 <= k < |vs| :: EncodeValue(f, RestoredValue(f, vs[k])) == EncodeValue(f, vs[k])
    ensures EncodeItems(f, RestoredValues(f, vs)) == EncodeItems(f, vs)
    ensures EncodePacked(f, RestoredValues(f, vs)) == EncodePacked(f, vs)
    decreases |vs|
  {
    hide EncodeValue, RestoredValue;
    if vs != [] {
      assert RestoredValues(f, vs)[1..] == RestoredValues(f, vs[1..]);
      RestoredItemsEncodeAlike(f, vs[1..]);
    }
  }

  lemma {:induction false} RestoredValueEncodesAlike(f: Field, v: Value)
    requires FieldOk(f) && ValueOk(f, v)
    ensures EncodeValue(f, RestoredValue(f, v)) == EncodeValue(f, v)
    decreases f, 0
  {
    if f.kind.SubmessageKind? {
      RestoredEncodesAlike(f.kind.fields, v.slots, 0);
    }
  }

  lemma {:induction false} RestoredArrayEncodesAlike(f: Field, vs: seq<Value>)
    requires FieldOk(f) && forall k | 0 <= k < |vs| :: ValueOk(f, vs[k])
    ensures EncodeArray(f, RestoredValues(f, vs)) == EncodeArray(f, vs)
    decreases f, 1
  {
    hide ValueOk, EncodeValue;
    forall k | 0 <= k < |vs|
      ensures EncodeValue(f, RestoredValue(f, vs[k])) == EncodeValue(f, vs[k])
    {
      RestoredValueEncodesAlike(f, vs[k]);
    }
    RestoredItemsEncodeAlike(f, vs);
    if vs == [] {
      assert RestoredValues(f, vs) == [];
    }
  }

  /** The member that is present is found, and a member that is found is the one present. */
  lemma {:induction false} ActiveIsChosen(fields: seq<Field>, slots: seq<Slot>, i: nat, n: nat)
    requires DescriptorOk(fields) && i < |fields| == |slots| && n <= |fields| && fields[i].rule.Oneof?
    requires slots[Home(fields, i)].Choice?
    ensures var h := Home(fields, i);
            && (i < n && slots[h].which == fields[i].tag ==> Active(fields, slots, h, n) == Some(i))
            && (Active(fields, slots, h, n).Some? ==> slots[h].which == fields[Active(fields, slots, h, n).value].tag)
    decreases n
  {
    hide FieldOk;
    if n > 0 {
      ActiveIsChosen(fields, slots, i, n - 1);
      if n - 1 != i {
        assert fields[n - 1].tag != fields[i].tag;
      }
    }
  }

  lemma {:induction false} RestoredFieldEncodesAlike(fields: seq<Field>, slots: seq<Slot>, i: nat)
    requires DescriptorOk(fields) && SlotsOk(fields, slots) && i < |fields|
    ensures EncodeField(fields[i], Restored(fields, slots)[Home(fields, i)])
         == EncodeField(fields[i], slots[Home(fields, i)])
    decreases fields, 0
  {
    hide DescriptorOk, EncodeValue, EncodeArray, ValueOk;
    FieldOfDescriptor(fields, i);
    HomeOfOther(fields, i);
    HomeIsHome(fields, i);
    var f, h := fields[i], Home(fields, i);
    var slot := slots[h];
    assert SlotOk(f, slot);
    assert Restored(fields, slots)[h] == PartialSlot(fields, slots, |fields|, h);
    match f.rule {
      case Required => RestoredValueEncodesAlike(f, slot.v);
      case Optional =>
        if slot.has {
          RestoredValueEncodesAlike(f, slot.v);
        }
      case Repeated => RestoredArrayEncodesAlike(f, slot.vs);
      case Oneof =>
        ActiveIsChosen(fields, slots, i, |fields|);
        if slot.which == f.tag {
          RestoredValueEncodesAlike(f, slot.v);
        } else {
          FieldIsTagged(f);
        }
    }
  }

  lemma FieldIsTagged(f: Field)
    requires FieldOk(f)
    ensures f.tag > 0
  {
  }

  /**
   The restored message encodes to the very same bytes, so encoding and decoding once more
   changes nothing: no present value was lost and no absent one appeared.
   */
  lemma {:induction false} RestoredEncodesAlike(fields: seq<Field>, slots: seq<Slot>, i: nat)
    requires DescriptorOk(fields) && SlotsOk(fields, slots) && i <= |fields|
    ensures EncodeFields(fields, Restored(fields, slots), i) == EncodeFields(fields, slots, i)
    decreases fields, 1, |fields| - i
  {
    hide DescriptorOk, SlotsOk, EncodeField, Restored;
    if i < |fields| {
      RestoredFieldEncodesAlike(fields, slots, i);
      RestoredEncodesAlike(fields, slots, i + 1);
    }
  }

  /** The encoder succeeds on every valid message. */
  lemma {:induction false} ValidEncodes(fields: seq<Field>, slots: seq<Slot>, i: nat)
    requires SlotsOk(fields, slots) && i <= |fields|
    ensures EncodeFields(fields, slots, i).Some?
    decreases fields, 1, |fields| - i
  {
    if i < |fields| {
      hide ValueOk, EncodeValue;
      var f, slot := fields[i], slots[Home(fields, i)];
      assert SlotOk(f, slot);
      match f.rule {
        case Required => ValidValueEncodes(f, slot.v);
        case Optional =>
          if slot.has {
            ValidValueEncodes(f, slot.v);
          }
        case Repeated => ValidArrayEncodes(f, slot.vs);
        case Oneof =>
          if slot.which == f.tag {
            ValidValueEncodes(f, slot.v);
          }
      }
      assert EncodeField(f, slot).Some?;
      ValidEncodes(fields, slots, i + 1);
    }
  }

  lemma {:induction false} ValidValueEncodes(f: Field, v: Value)
    requires ValueOk(f, v)
    ensures EncodeValue(f, v).Some?
    decreases f, 0
  {
    if f.kind.SubmessageKind? {
      ValidEncodes(f.kind.fields, v.slots, 0);
    }
  }

  lemma {:induction false} ValidArrayEncodes(f: Field, vs: seq<Value>)
    requires forall k | 0 <= k < |vs| :: ValueOk(f, vs[k])
    ensures EncodeItems(f, vs).Some? && EncodePacked(f, vs).Some?
    decreases f, 1, |vs|
  {
    if vs != [] {
      hide ValueOk, EncodeValue;
      ValidValueEncodes(f, vs[0]);
      ValidArrayEncodes(f, vs[1..]);
    }
  }
}
