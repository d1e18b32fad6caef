/**
 Message types that have grown: a field whose tag a descriptor lacks is passed over byte for
 byte, whatever it holds, so that an old reader makes of a new message what it would make of
 the fields it knows (pb_decode.c, pb_skip_field).
 */
module Evolution {
  import opened Bits
  import opened Wrappers
  import opened Varint
  import opened Schema
  import opened Encoding
  import opened Decoding
  import opened RoundTrip

  // What is passed over, in bytes

  /** A varint is passed over up to and including the first byte below 128. */
  lemma {:induction false} VarintIsSkipped(s: seq<byte>, k: nat)
    requires k < |s| && s[k] < 128 && forall j | 0 <= j < k :: s[j] >= 128
    ensures Skip(0, s) == Some(s[k + 1..])
    decreases k
  {
    if k > 0 {
      VarintIsSkipped(s[1..], k - 1);
      assert s[1..][k..] == s[k + 1..];
    }
  }

  lemma {:induction false} EndlessVarintFails(s: seq<byte>)
    requires forall j | 0 <= j < |s| :: s[j] >= 128
    ensures Skip(0, s) == None
    decreases |s|
  {
    if s != [] {
      EndlessVarintFails(s[1..]);
    }
  }

  /** Eight bytes go for wire type 1, four for wire type 5, a length and its bytes for 2; other types are errors. */
  lemma WireTypeDecides(wireType: nat, s: seq<byte>)
    ensures Skip(1, s) == if |s| >= 8 then Some(s[8..]) else None
    ensures Skip(5, s) == if |s| >= 4 then Some(s[4..]) else None
    ensures wireType !in {0, 1, 2, 5} ==> Skip(wireType, s) == None
  {
  }

  lemma DelimitedIsSkipped(payload: seq<byte>, tail: seq<byte>)
    requires |payload| < U32
    ensures Skip(2, Encode(|payload|) + payload + tail) == Some(tail)
  {
    hide TakeDelimited, Encode;
    TakeDelimitedRoundTrip(payload, tail);
  }

  lemma {:induction false} EncodedVarintIsSkipped(v: nat, tail: seq<byte>)
    ensures Skip(0, Encode(v) + tail) == Some(tail)
    decreases v
  {
    if v >= 128 {
      EncodedVarintIsSkipped(v / 128, tail);
      assert Encode(v) + tail == [v % 128 + 128] + (Encode(v / 128) + tail);
    }
  }

  // Values of fields that a descriptor lacks

  predicate Lacks(fields: seq<Field>, tag: nat) {
    forall i | 0 <= i < |fields| :: fields[i].tag != tag
  }

  /** Whatever the encoder writes for a value is passed over exactly. */
  lemma ValueIsSkipped(f: Field, v: Value, bytes: seq<byte>, tail: seq<byte>)
    requires EncodeValue(f, v) == Some(bytes) && |bytes| < U32
    ensures Skip(WireType(f.kind), bytes + tail) == Some(tail)
  {
    hide Encode, Fixed, TakeDelimited, SkipVarint, EncodeFields;
    if f.kind.VarintKind? {
      EncodedVarintIsSkipped(AsUnsigned(v.n), tail);
    } else if f.kind.UVarintKind? {
      EncodedVarintIsSkipped(v.n, tail);
    } else if f.kind.SVarintKind? {
      EncodedVarintIsSkipped(Zigzag(v.n), tail);
    } else if f.kind.Fixed32Kind? {
      TakeRoundTrip(Fixed(v.n, 4), tail);
    } else if f.kind.Fixed64Kind? {
      TakeRoundTrip(Fixed(v.n, 8), tail);
    } else {
      var payload := Payload(f, v);
      TakeDelimitedRoundTrip(payload, tail);
    }
  }

  /** What a length-delimited value consists of. */
  ghost function Payload(f: Field, v: Value): (payload: seq<byte>)
    requires !f.kind.Packable() && EncodeValue(f, v).Some?
    ensures EncodeValue(f, v) == Some(Delimited(payload)) && |payload| < |EncodeValue(f, v).value|
  {
    match f.kind
    case StringKind => v.bytes[..StringLength(v.bytes, f.dataSize)]
    case SubmessageKind(fields) => EncodeFields(fields, v.slots, 0).value
    case BytesKind => v.bytes
    case FixedBytesKind => v.bytes
  }

  lemma KeyedIsSkipped(fields: seq<Field>, tag: nat, wireType: nat, bytes: seq<byte>, tail: seq<byte>, slots: seq<Slot>,
                       seen: set<nat>)
    requires |slots| == |fields| && Lacks(fields, tag) && 0 < tag <= SIZE_MAX && wireType < 8
    requires Skip(wireType, bytes + tail) == Some(tail)
    ensures DecodeLoop(fields, Key(tag, wireType) + bytes + tail, slots, seen) == DecodeLoop(fields, tail, slots, seen)
  {
    hide DecodeTag, Skip, DecodeField, Find, Key;
    var s := Key(tag, wireType) + (bytes + tail);
    assert Key(tag, wireType) + bytes + tail == s;
    DecodeKey(tag, wireType, bytes + tail);
    assert s != [] by {
      assert DecodeTag(s).Tag?;
    }
    assert DecodeOne(fields, tag, wireType, bytes + tail, slots, seen) == Some(Progress(slots, seen, tail));
  }

  /** Main result: one value of an unknown field leaves no trace. */
  lemma UnknownValueIsInvisible(fields: seq<Field>, f: Field, v: Value, u: seq<byte>, tail: seq<byte>, slots: seq<Slot>,
                                seen: set<nat>)
    requires |slots| == |fields| && Lacks(fields, f.tag) && 0 < f.tag <= SIZE_MAX
    requires Tagged(f, v) == Some(u) && |u| < U32
    ensures DecodeLoop(fields, u + tail, slots, seen) == DecodeLoop(fields, tail, slots, seen)
  {
    hide EncodeValue, DecodeLoop, Key, Skip;
    var bytes := EncodeValue(f, v).value;
    ValueIsSkipped(f, v, bytes, tail);
    KeyedIsSkipped(fields, f.tag, WireType(f.kind), bytes, tail, slots, seen);
  }

  lemma {:induction false} UnknownItemsAreInvisible(fields: seq<Field>, f: Field, vs: seq<Value>, u: seq<byte>,
                                                    tail: seq<byte>, slots: seq<Slot>, seen: set<nat>)
    requires |slots| == |fields| && Lacks(fields, f.tag) && 0 < f.tag <= SIZE_MAX
    requires EncodeItems(f, vs) == Some(u) && |u| < U32
    ensures DecodeLoop(fields, u + tail, slots, seen) == DecodeLoop(fields, tail, slots, seen)
    decreases |vs|
  {
    hide Tagged, DecodeLoop;
    if vs == [] {
      assert u + tail == tail;
    } else {
      var first, rest := Tagged(f, vs[0]).value, EncodeItems(f, vs[1..]).value;
      assert u + tail == first + (rest + tail);
      UnknownValueIsInvisible(fields, f, vs[0], first, rest + tail, slots, seen);
      UnknownItemsAreInvisible(fields, f, vs[1..], rest, tail, slots, seen);
    }
  }

  lemma UnknownPackedIsInvisible(fields: seq<Field>, f: Field, vs: seq<Value>, u: seq<byte>, tail: seq<byte>,
                                 slots: seq<Slot>, seen: set<nat>)
    requires |slots| == |fields| && Lacks(fields, f.tag) && 0 < f.tag <= SIZE_MAX
    requires vs != [] && f.kind.Packable() && EncodeArray(f, vs) == Some(u) && |u| < U32
    ensures DecodeLoop(fields, u + tail, slots, seen) == DecodeLoop(fields, tail, slots, seen)
  {
    hide EncodePacked, DecodeLoop, Key, Encode, Skip;
    var payload := EncodePacked(f, vs).value;
    DelimitedIsSkipped(payload, tail);
    KeyedIsSkipped(fields, f.tag, 2, Delimited(payload), tail, slots, seen);
  }

  /** Main result: an unknown field of any rule leaves no trace, packed arrays included. */
  lemma UnknownFieldIsInvisible(fields: seq<Field>, f: Field, slot: Slot, u: seq<byte>, tail: seq<byte>, slots: seq<Slot>,
                                seen: set<nat>)
    requires |slots| == |fields| && Lacks(fields, f.tag) && 0 < f.tag <= SIZE_MAX
    requires EncodeField(f, slot) == Some(u) && |u| < U32
    ensures DecodeLoop(fields, u + tail, slots, seen) == DecodeLoop(fields, tail, slots, seen)
  {
    hide Tagged, EncodeItems, EncodePacked, DecodeLoop;
    if u == [] {
      assert u + tail == tail;
    } else if f.rule.Repeated? {
      if f.kind.Packable() {
        UnknownPackedIsInvisible(fields, f, slot.vs, u, tail, slots, seen);
      } else {
        UnknownItemsAreInvisible(fields, f, slot.vs, u, tail, slots, seen);
      }
    } else {
      UnknownValueIsInvisible(fields, f, slot.v, u, tail, slots, seen);
    }
  }

  // An old reader and a new message

  lemma {:induction false} HomeOfPrefix(fields: seq<Field>, extra: seq<Field>, i: nat)
    requires i < |fields|
    ensures Home(fields + extra, i) == Home(fields, i)
    decreases i
  {
    if i > 0 {
      HomeOfPrefix(fields, extra, i - 1);
    }
  }

  lemma PrefixIsOk(fields: seq<Field>, extra: seq<Field>)
    requires DescriptorOk(fields + extra)
    ensures DescriptorOk(fields)
    ensures forall k | 0 <= k < |extra| :: Lacks(fields, extra[k].tag) && 0 < extra[k].tag <= SIZE_MAX
  {
    var all := fields + extra;
    assert forall i | 0 <= i < |fields| :: all[i] == fields[i];
    forall k | 0 <= k < |extra|
      ensures Lacks(fields, extra[k].tag) && 0 < extra[k].tag <= SIZE_MAX
    {
      assert all[|fields| + k] == extra[k];
      assert FieldOk(all[|fields| + k]);
    }
  }

  lemma ExtraIsUnknown(fields: seq<Field>, extra: seq<Field>, i: nat)
    requires DescriptorOk(fields + extra) && |fields| <= i < |fields + extra|
    ensures Lacks(fields, (fields + extra)[i].tag) && 0 < (fields + extra)[i].tag <= SIZE_MAX
  {
    PrefixIsOk(fields, extra);
    hide DescriptorOk, Lacks;
    assert (fields + extra)[i] == extra[i - |fields|];
  }

  lemma {:induction false} ExtraIsInvisible(fields: seq<Field>, extra: seq<Field>, slots: seq<Slot>, i: nat, bytes: seq<byte>,
                                            now: seq<Slot>, seen: set<nat>)
    requires DescriptorOk(fields + extra) && |slots| == |fields + extra| && |now| == |fields|
    requires |fields| <= i <= |fields + extra| && EncodeFields(fields + extra, slots, i) == Some(bytes) && |bytes| < U32
    ensures DecodeLoop(fields, bytes, now, seen) == Some(Progress(now, seen, []))
    decreases |fields + extra| - i
  {
    hide DescriptorOk, EncodeField, EncodeFields, DecodeLoop, Home, Lacks;
    var all := fields + extra;
    EncodedStep(all, slots, i, bytes);
    if i == |all| {
      LoopAtEnd(fields, now, seen);
    } else {
      ExtraIsUnknown(fields, extra, i);
      var first, rest := EncodeField(all[i], slots[Home(all, i)]).value, EncodeFields(all, slots, i + 1).value;
      UnknownFieldIsInvisible(fields, all[i], slots[Home(all, i)], first, rest, now, seen);
      ExtraIsInvisible(fields, extra, slots, i + 1, rest, now, seen);
    }
  }

  /** The fields the old reader knows, as the new message has them. */
  function Known(fields: seq<Field>, slots: seq<Slot>): (known: seq<Slot>)
    requires |fields| <= |slots|
    ensures |known| == |fields|
  {
    slots[..|fields|]
  }

  lemma AllRestored(fields: seq<Field>, slots: seq<Slot>)
    requires |slots| == |fields|
    ensures PartlyRestored(fields, slots, |fields|) == Restored(fields, slots)
  {
    hide PartlyRestored;
  }

  lemma RequiredStep(fields: seq<Field>, i: nat, seen: set<nat>)
    ensures i >= |fields| ==> seen + RequiredFrom(fields, i) == seen
    ensures i < |fields| ==>
              (if fields[i].rule.Required? then seen + {i} else seen) + RequiredFrom(fields, i + 1) == seen + RequiredFrom(fields, i)
  {
  }

  lemma {:induction false} KnownFieldsDecode(fields: seq<Field>, extra: seq<Field>, slots: seq<Slot>, i: nat, bytes: seq<byte>,
                                             seen: set<nat>)
    requires DescriptorOk(fields + extra) && SlotsOk(fields + extra, slots) && i <= |fields|
    requires EncodeFields(fields + extra, slots, i) == Some(bytes) && |bytes| < U32
    ensures var known := Known(fields, slots);
            DecodeLoop(fields, bytes, PartlyRestored(fields, known, i), seen)
            == Some(Progress(Restored(fields, known), seen + RequiredFrom(fields, i), []))
    decreases |fields| - i
  {
    PrefixIsOk(fields, extra);
    hide DescriptorOk, SlotsOk, SlotOk, EncodeField, EncodeFields, PartlyRestored, DecodeLoop, Known, Home, Lacks,
         RequiredFrom, Restored;
    var known := Known(fields, slots);
    if i == |fields| {
      AllRestored(fields, known);
      ExtraIsInvisible(fields, extra, slots, i, bytes, Restored(fields, known), seen);
      RequiredStep(fields, i, seen);
    } else {
      var first, rest := KnownField(fields, extra, slots, i, bytes);
      FieldRoundTrip(fields, known, i, first, rest, seen);
      var seen' := if fields[i].rule.Required? then seen + {i} else seen;
      KnownFieldsDecode(fields, extra, slots, i + 1, rest, seen');
      RequiredStep(fields, i, seen);
    }
  }

  /** What the writer encodes for a field that the reader knows. */
  lemma KnownField(fields: seq<Field>, extra: seq<Field>, slots: seq<Slot>, i: nat, bytes: seq<byte>)
    returns (first: seq<byte>, rest: seq<byte>)
    requires SlotsOk(fields + extra, slots) && i < |fields| && EncodeFields(fields + extra, slots, i) == Some(bytes)
    ensures var slot := Known(fields, slots)[Home(fields, i)];
            SlotOk(fields[i], slot) && EncodeField(fields[i], slot) == Some(first)
    ensures EncodeFields(fields + extra, slots, i + 1) == Some(rest) && bytes == first + rest
  {
    var all := fields + extra;
    HomeOfPrefix(fields, extra, i);
    assert all[i] == fields[i] && SlotOk(all[i], slots[Home(all, i)]);
    hide SlotOk, SlotsOk, EncodeField, EncodeFields, Home;
    EncodedStep(all, slots, i, bytes);
    first, rest := EncodeField(all[i], slots[Home(all, i)]).value, EncodeFields(all, slots, i + 1).value;
  }

  /**
   Main result: a reader whose message type lacks the last fields of the writer's restores
   from every message just the fields it knows.
   */
  lemma OldReaderUnderstands(fields: seq<Field>, extra: seq<Field>, slots: seq<Slot>, bytes: seq<byte>)
    requires DescriptorOk(fields + extra) && SlotsOk(fields + extra, slots)
    requires EncodeFields(fields + extra, slots, 0) == Some(bytes) && |bytes| < U32
    ensures DecodeMessage(fields, bytes, Defaults(fields)) == Some(Restored(fields, Known(fields, slots)))
  {
    hide DescriptorOk, DecodeLoop;
    NothingRestored(fields, Known(fields, slots));
    KnownFieldsDecode(fields, extra, slots, 0, bytes, {});
    assert RequiredSeen(fields, {} + RequiredFrom(fields, 0));
  }
}
