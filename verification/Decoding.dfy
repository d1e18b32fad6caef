/**
 What nanopb's decoder makes of a stream of bytes (pb_decode.c), as functions from the
 bytes left in the stream and the message so far to the updated message and the bytes then
 left.  None stands for a decoder error.
 */
module Decoding {
  import opened Bits
  import opened Wrappers
  import opened Varint
  import opened Schema
  import opened Encoding

  datatype TagResult = BadTag | Terminator(rest: seq<byte>) | Tag(tag: nat, wireType: nat, rest: seq<byte>)

  /** pb_decode_tag on a stream that is not empty; a zero ends the message. */
  function DecodeTag(s: seq<byte>): (r: TagResult)
    ensures !r.BadTag? ==> |r.rest| < |s|
  {
    match Decode32(s)
    case None => BadTag
    case Some((key, rest)) => if key == 0 then Terminator(rest) else Tag(key / 8, key % 8, rest)
  }

  function SkipVarint(s: seq<byte>): (r: Option<seq<byte>>)
    ensures r.Some? ==> |r.value| < |s|
    decreases |s|
  {
    if s == [] then None else if s[0] >= 128 then SkipVarint(s[1..]) else Some(s[1..])
  }

  function Take(s: seq<byte>, n: nat): (r: Option<(seq<byte>, seq<byte>)>)
    ensures r.Some? ==> |r.value.0| == n && r.value.0 + r.value.1 == s
  {
    if |s| < n then None else Some((s[..n], s[n..]))
  }

  /** A length and that many bytes. */
  function TakeDelimited(s: seq<byte>): (r: Option<(seq<byte>, seq<byte>)>)
    ensures r.Some? ==> |r.value.0| + |r.value.1| < |s|
  {
    match Decode32(s)
    case None => None
    case Some((size, rest)) => Take(rest, size)
  }

  /** pb_skip_field */
  function Skip(wireType: nat, s: seq<byte>): (r: Option<seq<byte>>)
    ensures r.Some? ==> |r.value| < |s|
  {
    if wireType == WT_VARINT then SkipVarint(s)
    else if wireType == WT_64BIT then
      match Take(s, 8)
      case None => None
      case Some((_, rest)) => Some(rest)
    else if wireType == WT_STRING then
      match TakeDelimited(s)
      case None => None
      case Some((_, rest)) => Some(rest)
    else if wireType == WT_32BIT then
      match Take(s, 4)
      case None => None
      case Some((_, rest)) => Some(rest)
    else None
  }

  /** The signed value pb_dec_varint stores, if it fits the field; narrow fields look at 32 bits only. */
  function NarrowSigned(u: nat, size: nat): Option<Value>
    requires u < U64
  {
    if size == 8 then Some(Num(AsSigned(u)))
    else
      var low: int := u % U32;
      var n: int := if low >= U31 then low - U32 else low;
      if FitsSigned(n, size) then Some(Num(n)) else None
  }

  /** The fields a varint of this kind can be stored in, with the value stored. */
  function FromVarint(f: Field, u: nat): Option<Value>
    requires u < U64
  {
    match f.kind
    case VarintKind => NarrowSigned(u, f.dataSize)
    case UVarintKind => if FitsUnsigned(u, f.dataSize) then Some(Num(u)) else None
    case SVarintKind => if FitsSigned(Unzigzag(u), f.dataSize) then Some(Num(Unzigzag(u))) else None
    case _ => None
  }

  lemma {:induction false} DecodeFromBound(s: seq<byte>, k: nat, acc: nat)
    requires acc < U64
    ensures DecodeFrom(s, k, acc).Some? ==> DecodeFrom(s, k, acc).value.0 < U64
    decreases |s|
  {
    if k < 64 && s != [] {
      WordSizes();
      var group := Truncate(Shl(s[0] % 128, k), 64);
      OrBound(acc, group, 64);
      if s[0] >= 128 {
        DecodeFromBound(s[1..], k + 7, Or(acc, group));
      }
    }
  }

  /** Length checks of the decoders for length-delimited values. */
  function FromDelimited(f: Field, payload: seq<byte>): Option<Value> {
    match f.kind
    case BytesKind => if |payload| <= SIZE_MAX && |payload| + 1 <= f.dataSize then Some(Blob(payload)) else None
    case StringKind => if |payload| + 1 <= f.dataSize then Some(Blob(payload)) else None
    case FixedBytesKind =>
      if payload == [] then Some(Blob(seq(f.dataSize, _ => 0)))
      else if |payload| == f.dataSize then Some(Blob(payload))
      else None
    case _ => None
  }

  /** The decoder functions of PB_DECODERS; before is what the destination holds. */
  function DecodeValue(f: Field, s: seq<byte>, before: Value): (r: Option<(Value, seq<byte>)>)
    ensures r.Some? ==> |r.value.1| < |s|
    decreases |s|, 2
  {
    if f.kind.VarintKind? || f.kind.UVarintKind? || f.kind.SVarintKind? then
      match Decode(s)
      case None => None
      case Some((u, rest)) =>
        DecodeFromBound(s, 0, 0);
        match FromVarint(f, u)
        case None => None
        case Some(v) => Some((v, rest))
    else if f.kind.Fixed32Kind? || f.kind.Fixed64Kind? then
      match Take(s, if f.kind.Fixed32Kind? then 4 else 8)
      case None => None
      case Some((bytes, rest)) => Some((Num(FromFixed(bytes)), rest))
    else
      match TakeDelimited(s)
      case None => None
      case Some((payload, rest)) =>
        if f.kind.SubmessageKind? then
          match DecodeMessage(f.kind.fields, payload, Target(f, before))
          case None => None
          case Some(slots) => Some((Msg(slots), rest))
        else
          match FromDelimited(f, payload)
          case None => None
          case Some(v) => Some((v, rest))
  }

  /** A submessage is merged into what is there, except that array entries and union members start afresh. */
  function Target(f: Field, before: Value): (slots: seq<Slot>)
    requires f.kind.SubmessageKind?
    ensures |slots| == |f.kind.fields|
  {
    if f.rule.Repeated? || f.rule.Oneof? || !before.Msg? || |before.slots| != |f.kind.fields|
    then Defaults(f.kind.fields) else before.slots
  }

  /** The elements of a packed array, as many as there is room for; what is then left. */
  function DecodePacked(f: Field, s: seq<byte>, vs: seq<Value>): (r: Option<(seq<Value>, seq<byte>)>)
    decreases |s|, 3
  {
    if s == [] || |vs| >= f.arraySize then Some((vs, s))
    else match DecodeValue(f, s, Num(0))
      case None => None
      case Some((v, rest)) => DecodePacked(f, rest, vs + [v])
  }

  /** decode_static_field */
  function DecodeField(fields: seq<Field>, i: nat, wireType: nat, s: seq<byte>, slots: seq<Slot>)
    : (r: Option<(seq<Slot>, seq<byte>)>)
    requires i < |fields| == |slots|
    ensures r.Some? ==> |r.value.0| == |fields| && |r.value.1| < |s|
    decreases |s|, 4
  {
    var f, slot := fields[i], slots[Home(fields, i)];
    if f.rule.Repeated? && wireType == WT_STRING && f.kind.Packable() then
      if !slot.Many? then None
      else match TakeDelimited(s)
        case None => None
        case Some((payload, rest)) =>
          match DecodePacked(f, payload, slot.vs)
          case None => None
          case Some((vs, left)) => if left != [] then None else Some((slots[i := Many(vs)], rest))
    else if f.rule.Repeated? && (!slot.Many? || |slot.vs| >= f.arraySize) then None
    else
      match DecodeValue(f, s, OldValue(slot))
      case None => None
      case Some((v, rest)) => Some((slots[Home(fields, i) := Store(f, slot, v)], rest))
  }

  /** What the destination of a field holds before the field is decoded. */
  function OldValue(slot: Slot): Value {
    match slot
    case Single(v) => v
    case Maybe(_, v) => v
    case Choice(_, v) => v
    case _ => Num(0)
  }

  function Store(f: Field, slot: Slot, v: Value): Slot {
    match f.rule
    case Required => Single(v)
    case Optional => Maybe(true, v)
    case Repeated => Many((if slot.Many? then slot.vs else []) + [v])
    case Oneof => Choice(f.tag, v)
  }

  /** The field with a tag: the first one, and with distinct tags the only one. */
  function Find(fields: seq<Field>, tag: nat): (r: Option<nat>)
    ensures r.Some? ==> r.value < |fields| && fields[r.value].tag == tag
    ensures r.None? ==> forall i | 0 <= i < |fields| :: fields[i].tag != tag
  {
    FindFrom(fields, tag, 0)
  }

  function FindFrom(fields: seq<Field>, tag: nat, i: nat): (r: Option<nat>)
    requires i <= |fields|
    ensures r.Some? ==> i <= r.value < |fields| && fields[r.value].tag == tag
    ensures r.None? ==> forall j | i <= j < |fields| :: fields[j].tag != tag
    decreases |fields| - i
  {
    if i == |fields| then None else if fields[i].tag == tag then Some(i) else FindFrom(fields, tag, i + 1)
  }

  /** The state of the field loop: the message, the fields seen, and what is left of the stream. */
  datatype Progress = Progress(slots: seq<Slot>, seen: set<nat>, rest: seq<byte>)

  /**
   One round of the field loop of pb_decode_noinit after the key.  A message type without
   fields has only the terminator entry, which a zero tag finds and which never decodes.
   */
  function DecodeOne(fields: seq<Field>, tag: nat, wireType: nat, s: seq<byte>, slots: seq<Slot>, seen: set<nat>)
    : (r: Option<Progress>)
    requires |slots| == |fields|
    ensures r.Some? ==> |r.value.slots| == |fields| && |r.value.rest| < |s|
    decreases |s|, 5
  {
    if fields == [] && tag == 0 then None
    else match Find(fields, tag)
      case None =>
        (match Skip(wireType, s)
         case None => None
         case Some(rest) => Some(Progress(slots, seen, rest)))
      case Some(i) =>
        (match DecodeField(fields, i, wireType, s, slots)
         case None => None
         case Some((slots', rest)) =>
           Some(Progress(slots', if fields[i].rule.Required? then seen + {i} else seen, rest)))
  }

  function DecodeLoop(fields: seq<Field>, s: seq<byte>, slots: seq<Slot>, seen: set<nat>): (r: Option<Progress>)
    requires |slots| == |fields|
    ensures r.Some? ==> |r.value.slots| == |fields| && |r.value.rest| <= |s|
    decreases |s|, 0
  {
    if s == [] then Some(Progress(slots, seen, s))
    else match DecodeTag(s)
      case BadTag => None
      case Terminator(rest) => Some(Progress(slots, seen, rest))
      case Tag(tag, wireType, rest) =>
        match DecodeOne(fields, tag, wireType, rest, slots, seen)
        case None => None
        case Some(p) => DecodeLoop(fields, p.rest, p.slots, p.seen)
  }

  /** pb_decode_noinit: fields arrive in any order on top of the given message. */
  function DecodeMessage(fields: seq<Field>, s: seq<byte>, slots: seq<Slot>): (r: Option<seq<Slot>>)
    requires |slots| == |fields|
    ensures r.Some? ==> |r.value| == |fields|
    decreases |s|, 1
  {
    match DecodeLoop(fields, s, slots, {})
    case None => None
    case Some(p) => if RequiredSeen(fields, p.seen) then Some(p.slots) else None
  }
}
