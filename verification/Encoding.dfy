/**
 The bytes nanopb's encoder writes for a message (pb_encode.c), as a function.  None stands
 for an encoder error, or for a value that does not have the type its field declares.
 */
module Encoding {
  import opened Bits
  import opened Wrappers
  import opened Varint
  import opened Schema

  const WT_VARINT: nat := 0
  const WT_64BIT: nat := 1
  const WT_STRING: nat := 2
  const WT_32BIT: nat := 5

  /** A signed integer of this many bytes. */
  predicate FitsSigned(n: int, size: nat) {
    || (size == 1 && -0x80 <= n < 0x80)
    || (size == 2 && -0x8000 <= n < 0x8000)
    || (size == 4 && -0x8000_0000 <= n < 0x8000_0000)
    || (size == 8 && -U63 <= n < U63)
  }

  predicate FitsUnsigned(n: int, size: nat) {
    || (size == 1 && 0 <= n < 0x100)
    || (size == 2 && 0 <= n < 0x1_0000)
    || (size == 4 && 0 <= n < U32)
    || (size == 8 && 0 <= n < U64)
  }

  /** The length of the C string in a buffer of n bytes: up to the first NUL, or all of it. */
  function StringLength(buffer: seq<byte>, n: nat): (len: nat)
    ensures len <= |buffer| && len <= n
    ensures forall i | 0 <= i < len :: buffer[i] != 0
  {
    if buffer == [] || n == 0 || buffer[0] == 0 then 0 else 1 + StringLength(buffer[1..], n - 1)
  }

  function Delimited(payload: seq<byte>): seq<byte> {
    Encode(|payload|) + payload
  }

  /** The encoder functions of PB_ENCODERS. */
  function EncodeValue(f: Field, v: Value): Option<seq<byte>>
    decreases f, 0
  {
    match f.kind
    case VarintKind =>
      if v.Num? && FitsSigned(v.n, f.dataSize) then Some(Encode(AsUnsigned(v.n))) else None
    case UVarintKind =>
      if v.Num? && FitsUnsigned(v.n, f.dataSize) then Some(Encode(v.n)) else None
    case SVarintKind =>
      if v.Num? && FitsSigned(v.n, f.dataSize) then Some(Encode(Zigzag(v.n))) else None
    case Fixed32Kind =>
      if v.Num? && FitsUnsigned(v.n, 4) then Some(Fixed(v.n, 4)) else None
    case Fixed64Kind =>
      if v.Num? && FitsUnsigned(v.n, 8) then Some(Fixed(v.n, 8)) else None
    case BytesKind =>
      if v.Blob? && |v.bytes| + 1 <= f.dataSize then Some(Delimited(v.bytes)) else None
    case StringKind =>
      if v.Blob? then Some(Delimited(v.bytes[..StringLength(v.bytes, f.dataSize)])) else None
    case SubmessageKind(fields) =>
      if v.Msg? && |v.slots| == |fields| then
        match EncodeFields(fields, v.slots, 0)
        case Some(payload) => Some(Delimited(payload))
        case None => None
      else None
    case FixedBytesKind =>
      if v.Blob? && |v.bytes| == f.dataSize then Some(Delimited(v.bytes)) else None
  }

  function WireType(k: Kind): nat {
    match k
    case VarintKind => WT_VARINT
    case UVarintKind => WT_VARINT
    case SVarintKind => WT_VARINT
    case Fixed32Kind => WT_32BIT
    case Fixed64Kind => WT_64BIT
    case _ => WT_STRING
  }

  function Key(tag: nat, wireType: nat): seq<byte> {
    Encode(tag * 8 + wireType)
  }

  function Tagged(f: Field, v: Value): Option<seq<byte>>
    decreases f, 1
  {
    match EncodeValue(f, v)
    case Some(bytes) => Some(Key(f.tag, WireType(f.kind)) + bytes)
    case None => None
  }

  /** The elements of a packed array, without a length. */
  function EncodePacked(f: Field, vs: seq<Value>): Option<seq<byte>>
    decreases f, 2, |vs|
  {
    if vs == [] then Some([])
    else match EncodeValue(f, vs[0])
      case None => None
      case Some(first) =>
        match EncodePacked(f, vs[1..])
        case None => None
        case Some(rest) => Some(first + rest)
  }

  /** The elements of an array that cannot be packed, each with its key. */
  function EncodeItems(f: Field, vs: seq<Value>): Option<seq<byte>>
    decreases f, 2, |vs|
  {
    if vs == [] then Some([])
    else match Tagged(f, vs[0])
      case None => None
      case Some(first) =>
        match EncodeItems(f, vs[1..])
        case None => None
        case Some(rest) => Some(first + rest)
  }

  /** encode_array: arrays are packed whenever their elements allow it. */
  function EncodeArray(f: Field, vs: seq<Value>): Option<seq<byte>>
    decreases f, 3
  {
    if vs == [] then Some([])
    else if |vs| > f.arraySize then None
    else if f.kind.Packable() then
      match EncodePacked(f, vs)
      case None => None
      case Some(payload) => Some(Key(f.tag, WT_STRING) + Delimited(payload))
    else EncodeItems(f, vs)
  }

  /** encode_basic_field */
  function EncodeField(f: Field, slot: Slot): Option<seq<byte>>
    decreases f, 4
  {
    match f.rule
    case Required => if slot.Single? then Tagged(f, slot.v) else None
    case Optional => if !slot.Maybe? then None else if slot.has then Tagged(f, slot.v) else Some([])
    case Repeated => if slot.Many? then EncodeArray(f, slot.vs) else None
    case Oneof => if !slot.Choice? then None else if slot.which == f.tag then Tagged(f, slot.v) else Some([])
  }

  /** pb_encode from field i on. */
  function EncodeFields(fields: seq<Field>, slots: seq<Slot>, i: nat): Option<seq<byte>>
    requires |slots| == |fields| && i <= |fields|
    decreases fields, |fields| - i
  {
    if i == |fields| then Some([])
    else match EncodeField(fields[i], slots[Home(fields, i)])
      case None => None
      case Some(first) =>
        match EncodeFields(fields, slots, i + 1)
        case None => None
        case Some(rest) => Some(first + rest)
  }
}
