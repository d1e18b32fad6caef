/**
 What becomes of a submessage that occurs more than once (pb_decode.c): occurrences of a
 required or optional field merge, array entries each start from the defaults, and of a
 union the last member remains.
 */
module Submessages {
  import opened Bits
  import opened Wrappers
  import opened Varint
  import opened Schema
  import opened Encoding
  import opened Decoding
  import opened RoundTrip
  import opened Merge

  /** A submessage on the wire: key with wire type 2, length, payload. */
  function Occurrence(tag: nat, payload: seq<byte>): seq<byte> {
    Encode(tag * 8 + 2) + Encode(|payload|) + payload
  }

  /** Where a struct keeps a submessage: required and optional fields hold one, arrays any number. */
  predicate Holds(f: Field, slot: Slot) {
    match f.rule
    case Required => f.kind.SubmessageKind? && slot.Single? && slot.v.Msg? && |slot.v.slots| == |f.kind.fields|
    case Optional => f.kind.SubmessageKind? && slot.Maybe? && slot.v.Msg? && |slot.v.slots| == |f.kind.fields|
    case Repeated => f.kind.SubmessageKind? && slot.Many?
    case Oneof => f.kind.SubmessageKind?
  }

  /** What one occurrence does: what it is decoded on top of, and where the result goes. */
  ghost predicate Arrives(fields: seq<Field>, i: nat, payload: seq<byte>, tail: seq<byte>, slots: seq<Slot>, seen: set<nat>)
    requires i < |fields| == |slots| && Holds(fields[i], slots[Home(fields, i)])
  {
    var f, h := fields[i], Home(fields, i);
    var after := DecodeLoop(fields, Occurrence(f.tag, payload) + tail, slots, seen);
    match f.rule
    case Required =>
      (match DecodeMessage(f.kind.fields, payload, slots[h].v.slots)
       case None => after == None
       case Some(m) => after == DecodeLoop(fields, tail, slots[h := Single(Msg(m))], seen + {i}))
    case Optional =>
      (match DecodeMessage(f.kind.fields, payload, slots[h].v.slots)
       case None => after == None
       case Some(m) => after == DecodeLoop(fields, tail, slots[h := Maybe(true, Msg(m))], seen))
    case Repeated =>
      if |slots[h].vs| >= f.arraySize then after == None
      else
        (match DecodeMessage(f.kind.fields, payload, Defaults(f.kind.fields))
         case None => after == None
         case Some(m) => after == DecodeLoop(fields, tail, slots[h := Many(slots[h].vs + [Msg(m)])], seen))
    case Oneof =>
      (match DecodeMessage(f.kind.fields, payload, Defaults(f.kind.fields))
       case None => after == None
       case Some(m) => after == DecodeLoop(fields, tail, slots[h := Choice(f.tag, Msg(m))], seen))
  }

  lemma Regroup(a: seq<byte>, b: seq<byte>, c: seq<byte>, d: seq<byte>)
    ensures a + b + c + d == a + (b + c + d)
  {
  }

  lemma OccurrenceIsKeyed(tag: nat, payload: seq<byte>, tail: seq<byte>)
    requires 0 < tag <= SIZE_MAX
    ensures var s := Occurrence(tag, payload) + tail;
            s != [] && DecodeTag(s) == Tag(tag, 2, Delimited(payload) + tail)
  {
    hide DecodeTag, Encode;
    DecodeKey(tag, 2, Delimited(payload) + tail);
    Regroup(Encode(tag * 8 + 2), Encode(|payload|), payload, tail);
  }

  lemma OccurrenceIsFound(fields: seq<Field>, i: nat, payload: seq<byte>, tail: seq<byte>)
    requires DescriptorOk(fields) && i < |fields| && |payload| < U32
    ensures var s := Occurrence(fields[i].tag, payload) + tail;
            s != [] && DecodeTag(s) == Tag(fields[i].tag, 2, Delimited(payload) + tail)
    ensures Find(fields, fields[i].tag) == Some(i)
    ensures TakeDelimited(Delimited(payload) + tail) == Some((payload, tail))
  {
    FieldOfDescriptor(fields, i);
    OccurrenceIsKeyed(fields[i].tag, payload, tail);
    hide DescriptorOk, DecodeTag, Find, TakeDelimited, Occurrence;
    FindOwnTag(fields, i);
    TakeDelimitedRoundTrip(payload, tail);
  }

  lemma SubmessageArrives(fields: seq<Field>, i: nat, payload: seq<byte>, tail: seq<byte>, slots: seq<Slot>, seen: set<nat>)
    requires DescriptorOk(fields) && i < |fields| == |slots| && |payload| < U32
    requires Holds(fields[i], slots[Home(fields, i)])
    ensures Arrives(fields, i, payload, tail, slots, seen)
  {
    hide DescriptorOk, DecodeTag, Find, TakeDelimited, Delimited, Occurrence, DecodeMessage, Home, Defaults;
    OccurrenceIsFound(fields, i, payload, tail);
    HomeOfOther(fields, i);
    FieldDecoded(fields, i, payload, tail, slots);
    hide DecodeField;
    var f := fields[i];
    var rest := Delimited(payload) + tail;
    match DecodeField(fields, i, 2, rest, slots) {
      case None =>
        assert DecodeOne(fields, f.tag, 2, rest, slots, seen) == None;
      case Some((slots', left)) =>
        assert DecodeOne(fields, f.tag, 2, rest, slots, seen)
            == Some(Progress(slots', if f.rule.Required? then seen + {i} else seen, left));
    }
  }

  lemma FieldDecoded(fields: seq<Field>, i: nat, payload: seq<byte>, tail: seq<byte>, slots: seq<Slot>)
    requires i < |fields| == |slots| && Holds(fields[i], slots[Home(fields, i)])
    requires TakeDelimited(Delimited(payload) + tail) == Some((payload, tail))
    requires !fields[i].rule.Oneof? ==> Home(fields, i) == i
    ensures var f, h := fields[i], Home(fields, i);
            var start := if f.rule.Required? || f.rule.Optional? then slots[h].v.slots else Defaults(f.kind.fields);
            DecodeField(fields, i, 2, Delimited(payload) + tail, slots) ==
              if f.rule.Repeated? && |slots[h].vs| >= f.arraySize then None
              else match DecodeMessage(f.kind.fields, payload, start)
                case None => None
                case Some(m) =>
                  Some((slots[h := match f.rule
                                   case Required => Single(Msg(m))
                                   case Optional => Maybe(true, Msg(m))
                                   case Repeated => Many(slots[h].vs + [Msg(m)])
                                   case Oneof => Choice(f.tag, Msg(m))], tail))
  {
    hide TakeDelimited, Delimited, DecodeMessage, Home, Defaults;
  }

  /**
   Main result: two occurrences of a required or optional submessage leave what one with the
   payloads one after the other would, so that fields of the first survive the second.
   */
  lemma OccurrencesMerge(fields: seq<Field>, i: nat, a: seq<byte>, b: seq<byte>, tail: seq<byte>, slots: seq<Slot>,
                         seen: set<nat>)
    requires DescriptorOk(fields) && i < |fields| == |slots| && |a| + |b| < U32
    requires fields[i].rule.Required? || fields[i].rule.Optional?
    requires Holds(fields[i], slots[Home(fields, i)]) && NothingRequired(fields[i].kind.fields)
    requires DecodesToEnd(fields[i].kind.fields, a, slots[Home(fields, i)].v.slots, {})
    ensures DecodeLoop(fields, Occurrence(fields[i].tag, a) + Occurrence(fields[i].tag, b) + tail, slots, seen)
         == DecodeLoop(fields, Occurrence(fields[i].tag, a + b) + tail, slots, seen)
  {
    var f, h := fields[i], Home(fields, i);
    var first, second := Occurrence(f.tag, a), Occurrence(f.tag, b);
    assert first + second + tail == first + (second + tail);
    HomeOfOther(fields, i);
    hide DescriptorOk, DecodeLoop, DecodeMessage, Occurrence, DecodesToEnd, NothingRequired, Home;
    ConcatenationIsMerge(f.kind.fields, a, b, slots[h].v.slots);
    SubmessageArrives(fields, i, a, second + tail, slots, seen);
    SubmessageArrives(fields, i, a + b, tail, slots, seen);
    var m := DecodeMessage(f.kind.fields, a, slots[h].v.slots).value;
    var slots' := slots[h := if f.rule.Required? then Single(Msg(m)) else Maybe(true, Msg(m))];
    SubmessageArrives(fields, i, b, tail, slots', if f.rule.Required? then seen + {i} else seen);
    assert seen + {i} + {i} == seen + {i};
    if DecodeMessage(f.kind.fields, b, m).Some? {
      var n := DecodeMessage(f.kind.fields, b, m).value;
      assert slots'[h := Single(Msg(n))] == slots[h := Single(Msg(n))];
      assert slots'[h := Maybe(true, Msg(n))] == slots[h := Maybe(true, Msg(n))];
    }
  }

  /** Main result: two entries of an array of submessages know nothing of each other. */
  lemma EntriesStartFresh(fields: seq<Field>, i: nat, a: seq<byte>, b: seq<byte>, tail: seq<byte>, slots: seq<Slot>,
                          seen: set<nat>)
    requires DescriptorOk(fields) && i < |fields| == |slots| && |a| < U32 && |b| < U32
    requires fields[i].rule.Repeated? && Holds(fields[i], slots[i]) && |slots[i].vs| + 2 <= fields[i].arraySize
    ensures var sub := fields[i].kind.fields;
            var first, second := DecodeMessage(sub, a, Defaults(sub)), DecodeMessage(sub, b, Defaults(sub));
            DecodeLoop(fields, Occurrence(fields[i].tag, a) + Occurrence(fields[i].tag, b) + tail, slots, seen) ==
              if first.None? || second.None? then None
              else DecodeLoop(fields, tail, slots[i := Many(slots[i].vs + [Msg(first.value), Msg(second.value)])], seen)
  {
    var f := fields[i];
    var one, two := Occurrence(f.tag, a), Occurrence(f.tag, b);
    assert one + two + tail == one + (two + tail);
    HomeOfOther(fields, i);
    hide DescriptorOk, DecodeLoop, DecodeMessage, Occurrence, Home, Defaults;
    SubmessageArrives(fields, i, a, two + tail, slots, seen);
    var first := DecodeMessage(f.kind.fields, a, Defaults(f.kind.fields));
    if first.Some? {
      var slots' := slots[i := Many(slots[i].vs + [Msg(first.value)])];
      SubmessageArrives(fields, i, b, tail, slots', seen);
      var second := DecodeMessage(f.kind.fields, b, Defaults(f.kind.fields));
      if second.Some? {
        assert slots[i].vs + [Msg(first.value)] + [Msg(second.value)] == slots[i].vs + [Msg(first.value), Msg(second.value)];
        assert slots'[i := Many(slots[i].vs + [Msg(first.value), Msg(second.value)])]
            == slots[i := Many(slots[i].vs + [Msg(first.value), Msg(second.value)])];
      }
    }
  }

  /** Main result: of two members of a union, or two occurrences of one, the last alone remains. */
  lemma LastMemberRemains(fields: seq<Field>, i: nat, j: nat, a: seq<byte>, b: seq<byte>, tail: seq<byte>, slots: seq<Slot>,
                          seen: set<nat>)
    requires DescriptorOk(fields) && i < |fields| == |slots| && j < |fields| && |a| < U32 && |b| < U32
    requires fields[i].rule.Oneof? && fields[j].rule.Oneof? && Home(fields, i) == Home(fields, j)
    requires fields[i].kind.SubmessageKind? && fields[j].kind.SubmessageKind?
    requires DecodeMessage(fields[i].kind.fields, a, Defaults(fields[i].kind.fields)).Some?
    ensures DecodeLoop(fields, Occurrence(fields[i].tag, a) + Occurrence(fields[j].tag, b) + tail, slots, seen)
         == DecodeLoop(fields, Occurrence(fields[j].tag, b) + tail, slots, seen)
  {
    var h := Home(fields, i);
    var one, two := Occurrence(fields[i].tag, a), Occurrence(fields[j].tag, b);
    assert one + two + tail == one + (two + tail);
    hide DescriptorOk, DecodeLoop, DecodeMessage, Occurrence, Home, Defaults;
    SubmessageArrives(fields, i, a, two + tail, slots, seen);
    SubmessageArrives(fields, j, b, tail, slots, seen);
    var m := DecodeMessage(fields[i].kind.fields, a, Defaults(fields[i].kind.fields)).value;
    var slots' := slots[h := Choice(fields[i].tag, Msg(m))];
    SubmessageArrives(fields, j, b, tail, slots', seen);
    var second := DecodeMessage(fields[j].kind.fields, b, Defaults(fields[j].kind.fields));
    if second.Some? {
      var c := Choice(fields[j].tag, Msg(second.value));
      assert slots'[h := c] == slots[h := c];
    }
  }
}
